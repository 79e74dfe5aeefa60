/** The grub.cfg line machine (`parse_str`, src/boot/grub.rs) and the menu it describes. */
module Grub {
  import opened Common
  import opened Text
  import opened BootEntries

  // ---- Words ----

  /** `split_words` from a state: the word under construction and the open quote. */
  function WordsFrom(s: string, cur: string, single: bool, double: bool): (words: seq<string>)
    ensures forall i :: 0 <= i < |words| ==> words[i] != []
    decreases |s|
  {
    if s == [] then (if cur == [] then [] else [cur])
    else if s[0] == '\'' && !double then WordsFrom(s[1..], cur, !single, double)
    else if s[0] == '"' && !single then WordsFrom(s[1..], cur, single, !double)
    else if IsSpace(s[0]) && !single && !double then
      (if cur == [] then [] else [cur]) + WordsFrom(s[1..], [], single, double)
    else WordsFrom(s[1..], cur + [s[0]], single, double)
  }

  function Words(line: string): seq<string> {
    WordsFrom(line, [], false, false)
  }

  /** `split_words`, character by character. */
  method SplitWords(line: string) returns (words: seq<string>)
    ensures words == Words(line)
  {
    words := [];
    var cur: string := [];
    var single, double := false, false;
    assert line[0..] == line;
    for i := 0 to |line|
      invariant words + WordsFrom(line[i..], cur, single, double) == Words(line)
    {
      var c := line[i];
      assert line[i..][1..] == line[i + 1..];
      if c == '\'' && !double {
        single := !single;
      } else if c == '"' && !single {
        double := !double;
      } else if IsSpace(c) && !single && !double {
        assert words + ([cur] + WordsFrom(line[i + 1..], [], single, double))
               == (words + [cur]) + WordsFrom(line[i + 1..], [], single, double);
        if cur != [] {
          words := words + [cur];
        }
        cur := [];
      } else {
        cur := cur + [c];
      }
    }
    if cur != [] {
      words := words + [cur];
    }
  }

  // ---- Quoting ----

  /** A word as it may be written: bare, or between single quotes. */
  datatype Token = Bare(text: string) | Quoted(text: string)

  predicate Plain(c: char) {
    !IsSpace(c) && c != '\'' && c != '"'
  }

  predicate Writable(t: Token) {
    && t.text != []
    && (t.Bare? ==> forall i :: 0 <= i < |t.text| ==> Plain(t.text[i]))
    && (t.Quoted? ==> forall i :: 0 <= i < |t.text| ==> t.text[i] != '\'')
  }

  function Spelling(t: Token): string {
    if t.Bare? then t.text else ['\''] + t.text + ['\'']
  }

  function Texts(tokens: seq<Token>): (r: seq<string>)
    ensures |r| == |tokens| && forall i :: 0 <= i < |r| ==> r[i] == tokens[i].text
  {
    seq(|tokens|, i requires 0 <= i < |tokens| => tokens[i].text)
  }

  /** A line of words with blanks between them. */
  function LineOf(tokens: seq<Token>): string {
    if tokens == [] then []
    else if |tokens| == 1 then Spelling(tokens[0])
    else Spelling(tokens[0]) + [' '] + LineOf(tokens[1..])
  }

  lemma {:induction false} BareRun(w: string, cur: string, rest: string)
    requires forall i :: 0 <= i < |w| ==> Plain(w[i])
    ensures WordsFrom(w + rest, cur, false, false) == WordsFrom(rest, cur + w, false, false)
  {
    if w == [] {
      assert w + rest == rest && cur + w == cur;
    } else {
      assert (w + rest)[1..] == w[1..] + rest && cur + [w[0]] + w[1..] == cur + w;
      BareRun(w[1..], cur + [w[0]], rest);
    }
  }

  lemma {:induction false} QuotedRun(w: string, cur: string, rest: string)
    requires forall i :: 0 <= i < |w| ==> w[i] != '\''
    ensures WordsFrom(w + ['\''] + rest, cur, true, false) == WordsFrom(rest, cur + w, false, false)
  {
    var s := w + ['\''] + rest;
    if w == [] {
      assert s[1..] == rest && cur + w == cur;
    } else {
      assert s[1..] == w[1..] + ['\''] + rest && cur + [w[0]] + w[1..] == cur + w;
      QuotedRun(w[1..], cur + [w[0]], rest);
    }
  }

  lemma TokenRun(t: Token, rest: string)
    requires Writable(t)
    ensures WordsFrom(Spelling(t) + rest, [], false, false) == WordsFrom(rest, t.text, false, false)
  {
    hide WordsFrom;
    assert [] + t.text == t.text;
    if t.Bare? {
      BareRun(t.text, [], rest);
    } else {
      assert Spelling(t) + rest == ['\''] + (t.text + ['\''] + rest);
      QuoteOpens(t.text + ['\''] + rest);
      QuotedRun(t.text, [], rest);
    }
  }

  lemma QuoteOpens(s: string)
    ensures WordsFrom(['\''] + s, [], false, false) == WordsFrom(s, [], true, false)
  {
    assert (['\''] + s)[1..] == s;
  }

  lemma {:induction false} DoubleQuotedRun(w: string, cur: string, rest: string)
    requires forall i :: 0 <= i < |w| ==> w[i] != '"'
    ensures WordsFrom(w + ['"'] + rest, cur, false, true) == WordsFrom(rest, cur + w, false, false)
  {
    var s := w + ['"'] + rest;
    if w == [] {
      assert s[1..] == rest && cur + w == cur;
    } else {
      assert s[1..] == w[1..] + ['"'] + rest && cur + [w[0]] + w[1..] == cur + w;
      DoubleQuotedRun(w[1..], cur + [w[0]], rest);
    }
  }

  /** A word that goes on between double quotes. */
  lemma HalfQuoted(first: string, key: string, value: string)
    requires first != [] && key != []
    requires (forall i :: 0 <= i < |first| ==> Plain(first[i])) && (forall i :: 0 <= i < |key| ==> Plain(key[i]))
    requires forall i :: 0 <= i < |value| ==> value[i] != '"'
    ensures Words(first + [' '] + key + ['"'] + value + ['"']) == [first, key + value]
  {
    hide WordsFrom;
    var quoted := value + ['"'] + [];
    var tail := key + (['"'] + quoted);
    assert first + [' '] + key + ['"'] + value + ['"'] == first + ([' '] + tail);
    assert [] + first == first && [] + key == key;
    BareRun(first, [], [' '] + tail);
    BlankEndsWord(first, tail);
    BareRun(key, [], ['"'] + quoted);
    DoubleQuoteOpens(key, quoted);
    DoubleQuotedRun(value, key, []);
    NoWords(key + value);
  }

  lemma DoubleQuoteOpens(cur: string, s: string)
    ensures WordsFrom(['"'] + s, cur, false, false) == WordsFrom(s, cur, false, true)
  {
    assert (['"'] + s)[1..] == s;
  }

  /** Splitting undoes writing: quoted words come back with their blanks, bare words as they are. */
  lemma {:induction false} WordsUndoSpelling(tokens: seq<Token>)
    requires forall i :: 0 <= i < |tokens| ==> Writable(tokens[i])
    ensures Words(LineOf(tokens)) == Texts(tokens)
  {
    hide WordsFrom, Writable, Spelling;
    if tokens == [] {
      NoWords([]);
    } else {
      var t, rest := tokens[0], tokens[1..];
      WritableHasText(t);
      if rest == [] {
        assert Spelling(t) + [] == Spelling(t);
        TokenRun(t, []);
        NoWords(t.text);
      } else {
        var tail := LineOf(rest);
        assert Spelling(t) + [' '] + tail == Spelling(t) + ([' '] + tail);
        TokenRun(t, [' '] + tail);
        BlankEndsWord(t.text, tail);
        WordsUndoSpelling(rest);
        assert Texts(tokens) == [t.text] + Texts(rest);
      }
    }
  }

  lemma WritableHasText(t: Token)
    requires Writable(t)
    ensures t.text != []
  {
  }

  lemma NoWords(cur: string)
    ensures WordsFrom([], cur, false, false) == if cur == [] then [] else [cur]
  {
  }

  lemma BlankEndsWord(cur: string, rest: string)
    requires cur != []
    ensures WordsFrom([' '] + rest, cur, false, false) == [cur] + WordsFrom(rest, [], false, false)
  {
    assert ([' '] + rest)[1..] == rest;
  }

  /** `clean_path`: drop a `(device)` prefix, force an absolute path. */
  function CleanPath(p: string): (r: string)
    ensures r != [] && r[0] == '/'
    ensures p != [] && p[0] == '/' ==> r == p
  {
    var n := Until(p, {')'});
    var path := if p == [] || p[0] != '(' then p else if n < |p| then p[n + 1..] else p[1..];
    if path != [] && path[0] == '/' then path else "/" + path
  }

  function CleanPaths(words: seq<string>): seq<string> {
    if words == [] then [] else [CleanPath(words[0])] + CleanPaths(words[1..])
  }

  // ---- The machine ----

  /** An entry with its position: among the top-level items, and inside its submenu. */
  datatype RawEntry = RawEntry(entry: BootEntry, top: nat, sub: Option<nat>)

  datatype RawSubmenu = RawSubmenu(top: nat, id: Option<string>, title: Option<string>)

  datatype OpenMenu = OpenMenu(depth: int, top: nat, next: nat)

  datatype OpenEntry = OpenEntry(depth: int, raw: RawEntry)

  datatype State = State(
    raw: seq<RawEntry>,
    submenus: seq<RawSubmenu>,
    defaultSpec: Option<string>,
    usesBls: bool,
    depth: int,
    topCount: nat,
    submenu: Option<OpenMenu>,
    current: Option<OpenEntry>)

  const START := State([], [], None, false, 0, 0, None, None)

  const ID_OPTION: string := "$menuentry_id_option"

  function WordAt(words: seq<string>, i: nat): Option<string> {
    if i < |words| then Some(words[i]) else None
  }

  function MenuId(words: seq<string>): Option<string> {
    match Position(words, (w: string) => w == ID_OPTION)
    case None => None
    case Some(i) => WordAt(words, i + 1)
  }

  /** What a line inside a menuentry does to the entry. */
  function BodyLine(e: BootEntry, words: seq<string>, env: Env): BootEntry
    requires words != []
  {
    var kw := words[0];
    if kw in {"linux", "linux16", "linuxefi"} then
      if |words| < 2 then e
      else
        var cmdline := Trim(Expand(Join(words[2..], " "), env));
        e.(kernel := Some(CleanPath(words[1])), cmdline := if cmdline != [] then Some(cmdline) else e.cmdline)
    else if kw in {"initrd", "initrd16", "initrdefi"} then e.(initrd := CleanPaths(words[1..]))
    else if kw == "chainloader" then
      match Position(words[1..], (w: string) => !("-" <= w))
      case None => e.(chainloader := None)
      case Some(i) =>
        var w := words[1..][i];
        e.(chainloader := Some(if "+" <= w then w else CleanPath(w)))
    else e
  }

  function NewEntry(words: seq<string>): BootEntry {
    BLANK.(title := WordAt(words, 1), id := MenuId(words), source := Grub)
  }

  datatype Keyword = MenuEntry | Submenu | SetDefault(spec: string) | Other

  /** What a line outside every menuentry is about. */
  function KeywordOf(words: seq<string>, opens: bool): Keyword
    requires words != []
  {
    var kw := words[0];
    if kw == "menuentry" && opens then MenuEntry
    else if kw == "submenu" && opens then Submenu
    else if kw == "set" && |words| >= 2 && "default=" <= words[1] then SetDefault(words[1][8..])
    else Other
  }

  /** A line that hands over to BLS. */
  predicate HandsOver(words: seq<string>) {
    "blscfg" in words
  }

  /** A line outside every menuentry. */
  function MenuLine(st: State, words: seq<string>, opens: bool, env: Env): State
    requires words != []
  {
    var st' :=
      match KeywordOf(words, opens) {
        case MenuEntry =>
          (match st.submenu
           case Some(m) =>
             st.(submenu := Some(m.(next := m.next + 1)),
                 current := Some(OpenEntry(st.depth, RawEntry(NewEntry(words), m.top, Some(m.next)))))
           case None =>
             st.(topCount := st.topCount + 1,
                 current := Some(OpenEntry(st.depth, RawEntry(NewEntry(words), st.topCount, None)))))
        case Submenu =>
          st.(submenus := st.submenus + [RawSubmenu(st.topCount, MenuId(words), WordAt(words, 1))],
              submenu := Some(OpenMenu(st.depth, st.topCount, 0)),
              topCount := st.topCount + 1)
        case SetDefault(spec) => st.(defaultSpec := Some(Expand(spec, env)))
        case Other => st
      };
    if HandsOver(words) then st'.(usesBls := true) else st'
  }

  /** Brace bookkeeping. */
  function Braces(st: State, opens: bool, closes: bool): State {
    if opens then st.(depth := st.depth + 1)
    else if !closes then st
    else
      var d := st.depth - 1;
      if st.current.Some? && st.current.value.depth == d then
        st.(depth := d, raw := st.raw + [st.current.value.raw], current := None)
      else if st.submenu.Some? && st.submenu.value.depth == d then
        st.(depth := d, submenu := None)
      else st.(depth := d)
  }

  /** A line's words, before its braces are counted. */
  function ReadWords(st: State, words: seq<string>, opens: bool, env: Env): State
    requires words != []
  {
    if st.current.Some? then
      var e := st.current.value;
      st.(current := Some(e.(raw := e.raw.(entry := BodyLine(e.raw.entry, words, env)))))
    else MenuLine(st, words, opens, env)
  }

  function Step(st: State, rawLine: string, env: Env): State {
    var line := Trim(rawLine);
    var words := Words(line);
    if line == [] || line[0] == '#' || words == [] then st
    else
      var opens := line[|line| - 1] == '{';
      Braces(ReadWords(st, words, opens, env), opens, line == "}")
  }

  function Run(lines: seq<string>, env: Env): State {
    if lines == [] then START else Step(Run(lines[..|lines| - 1], env), lines[|lines| - 1], env)
  }

  /** All entries so far, the one under construction included. */
  function Entries(st: State): seq<RawEntry> {
    st.raw + if st.current.Some? then [st.current.value.raw] else []
  }

  // ---- The menu ----

  /** A top-level item: an entry, or a submenu with its entries. */
  datatype Item = Leaf(entry: BootEntry) | Sub(id: Option<string>, title: Option<string>, children: seq<BootEntry>)

  function Children(children: seq<BootEntry>, t: nat): (r: seq<RawEntry>)
    ensures |r| == |children| && forall j :: 0 <= j < |r| ==> r[j] == RawEntry(children[j], t, Some(j))
  {
    seq(|children|, j requires 0 <= j < |children| => RawEntry(children[j], t, Some(j)))
  }

  function ItemEntries(item: Item, t: nat): (r: seq<RawEntry>)
    ensures |r| == if item.Leaf? then 1 else |item.children|
    ensures forall j :: 0 <= j < |r| ==> r[j].top == t && r[j].sub == if item.Leaf? then None else Some(j)
  {
    match item
    case Leaf(e) => [RawEntry(e, t, None)]
    case Sub(_, _, children) => Children(children, t)
  }

  /** The menu's entries in order, numbered by top-level item and by place in the submenu. */
  function Flatten(menu: seq<Item>): seq<RawEntry> {
    if menu == [] then []
    else Flatten(menu[..|menu| - 1]) + ItemEntries(menu[|menu| - 1], |menu| - 1)
  }

  function Submenus(menu: seq<Item>): seq<RawSubmenu> {
    if menu == [] then []
    else
      var last := menu[|menu| - 1];
      Submenus(menu[..|menu| - 1]) + if last.Sub? then [RawSubmenu(|menu| - 1, last.id, last.title)] else []
  }

  /** The machine's state describes `menu`: same entries, submenus and numbering; an open submenu is
      the last item and counts its children; open blocks nest as depths say. */
  ghost predicate Describes(st: State, menu: seq<Item>) {
    && |menu| == st.topCount
    && Flatten(menu) == Entries(st)
    && Submenus(menu) == st.submenus
    && (st.current.Some? ==> menu != [] && st.current.value.depth < st.depth)
    && (st.submenu.Some? ==>
          && st.submenu.value.top + 1 == |menu|
          && menu[|menu| - 1].Sub? && st.submenu.value.next == |menu[|menu| - 1].children|
          && st.submenu.value.depth < if st.current.Some? then st.current.value.depth else st.depth)
    && (st.current.Some? ==>
          var last := menu[|menu| - 1];
          if last.Sub? then last.children != [] else true)
  }

  lemma FlattenSnoc(menu: seq<Item>, item: Item)
    ensures Flatten(menu + [item]) == Flatten(menu) + ItemEntries(item, |menu|)
    ensures Submenus(menu + [item]) ==
            Submenus(menu) + if item.Sub? then [RawSubmenu(|menu|, item.id, item.title)] else []
  {
    assert (menu + [item])[..|menu|] == menu;
  }

  /** Replacing the last item. */
  function WithLast(menu: seq<Item>, item: Item): seq<Item>
    requires menu != []
  {
    menu[..|menu| - 1] + [item]
  }

  /** The last item after its last entry has changed. */
  function Amended(item: Item, e: BootEntry): Item
    requires item.Sub? ==> item.children != []
  {
    match item
    case Leaf(_) => Leaf(e)
    case Sub(id, title, children) => Sub(id, title, children[..|children| - 1] + [e])
  }

  lemma SplitLast(menu: seq<Item>)
    requires menu != []
    ensures var init, last := menu[..|menu| - 1], menu[|menu| - 1];
            && menu == init + [last] && Flatten(menu) == Flatten(init) + ItemEntries(last, |init|)
            && Submenus(menu) == Submenus(init) + if last.Sub? then [RawSubmenu(|init|, last.id, last.title)] else []
  {
  }

  lemma AmendItem(item: Item, e: BootEntry, t: nat)
    requires item.Sub? ==> item.children != []
    ensures var before := ItemEntries(item, t);
            before != [] && ItemEntries(Amended(item, e), t) == before[..|before| - 1] + [before[|before| - 1].(entry := e)]
  {
  }

  lemma AmendLast(menu: seq<Item>, e: BootEntry)
    requires menu != [] && (menu[|menu| - 1].Sub? ==> menu[|menu| - 1].children != [])
    ensures var last := menu[|menu| - 1]; var all := Flatten(menu); var menu' := WithLast(menu, Amended(last, e));
            && all != [] && Flatten(menu') == all[..|all| - 1] + [all[|all| - 1].(entry := e)]
            && Submenus(menu') == Submenus(menu)
  {
    hide Flatten, Submenus, ItemEntries;
    var init, last := menu[..|menu| - 1], menu[|menu| - 1];
    SplitLast(menu);
    FlattenSnoc(init, Amended(last, e));
    AmendItem(last, e, |init|);
    var all, before := Flatten(menu), ItemEntries(last, |init|);
    assert all[..|all| - 1] == Flatten(init) + before[..|before| - 1];
  }

  lemma BodyStepDescribes(st: State, menu: seq<Item>, e: BootEntry) returns (menu': seq<Item>)
    requires Describes(st, menu) && st.current.Some?
    ensures var cur := st.current.value;
            Describes(st.(current := Some(cur.(raw := cur.raw.(entry := e)))), menu')
  {
    AmendLast(menu, e);
    menu' := WithLast(menu, Amended(menu[|menu| - 1], e));
    var all := Entries(st);
    assert all[..|all| - 1] == st.raw && all[|all| - 1] == st.current.value.raw;
  }

  /** A state whose line has been read but whose opening brace has not been counted yet. */
  ghost predicate DescribesMidLine(st: State, menu: seq<Item>, opens: bool) {
    Describes(if opens then st.(depth := st.depth + 1) else st, menu)
  }

  lemma AddChild(menu: seq<Item>, e: BootEntry) returns (menu': seq<Item>)
    requires menu != [] && menu[|menu| - 1].Sub?
    ensures var last := menu[|menu| - 1];
            && menu' == WithLast(menu, Sub(last.id, last.title, last.children + [e]))
            && Flatten(menu') == Flatten(menu) + [RawEntry(e, |menu| - 1, Some(|last.children|))]
            && Submenus(menu') == Submenus(menu)
  {
    hide Flatten, Submenus;
    var init, last := menu[..|menu| - 1], menu[|menu| - 1];
    var grown := Sub(last.id, last.title, last.children + [e]);
    menu' := WithLast(menu, grown);
    SplitLast(menu);
    FlattenSnoc(init, grown);
    assert ItemEntries(grown, |init|) == ItemEntries(last, |init|) + [RawEntry(e, |init|, Some(|last.children|))];
  }

  lemma AddItem(menu: seq<Item>, item: Item) returns (menu': seq<Item>)
    requires item.Sub? ==> item.children == []
    ensures menu' == menu + [item]
    ensures item.Leaf? ==> Flatten(menu') == Flatten(menu) + [RawEntry(item.entry, |menu|, None)] && Submenus(menu') == Submenus(menu)
    ensures item.Sub? ==> Flatten(menu') == Flatten(menu)
                          && Submenus(menu') == Submenus(menu) + [RawSubmenu(|menu|, item.id, item.title)]
  {
    hide Flatten, Submenus;
    menu' := menu + [item];
    FlattenSnoc(menu, item);
  }

  lemma MenuLineDescribes(st: State, menu: seq<Item>, words: seq<string>, opens: bool, env: Env) returns (menu': seq<Item>)
    requires Describes(st, menu) && st.current.None? && words != []
    ensures DescribesMidLine(MenuLine(st, words, opens, env), menu', opens)
  {
    hide KeywordOf, Expand, Flatten, Submenus, NewEntry, MenuId;
    menu' := menu;
    var kw := KeywordOf(words, opens);
    if kw.MenuEntry? {
      KeywordsOpen(words, opens);
      if st.submenu.Some? {
        menu' := AddChild(menu, NewEntry(words));
      } else {
        menu' := AddItem(menu, Leaf(NewEntry(words)));
      }
    } else if kw.Submenu? {
      KeywordsOpen(words, opens);
      menu' := AddItem(menu, Sub(MenuId(words), WordAt(words, 1), []));
    }
  }

  lemma KeywordsOpen(words: seq<string>, opens: bool)
    requires words != []
    ensures KeywordOf(words, opens).MenuEntry? || KeywordOf(words, opens).Submenu? ==> opens
  {
  }

  lemma BracesDescribe(st: State, menu: seq<Item>, opens: bool, closes: bool)
    requires DescribesMidLine(st, menu, opens)
    ensures Describes(Braces(st, opens, closes), menu)
  {
    if !opens && closes {
      var st' := Braces(st, opens, closes);
      assert Entries(st') == Entries(st);
    }
  }

  lemma StepDescribes(st: State, menu: seq<Item>, rawLine: string, env: Env) returns (menu': seq<Item>)
    requires Describes(st, menu)
    ensures Describes(Step(st, rawLine, env), menu')
  {
    hide Words, Trim, BodyLine, MenuLine, Braces, Flatten, Submenus;
    var line := Trim(rawLine);
    var words := Words(line);
    menu' := menu;
    if line != [] && line[0] != '#' && words != [] {
      var opens := line[|line| - 1] == '{';
      if st.current.Some? {
        var e := st.current.value;
        menu' := BodyStepDescribes(st, menu, BodyLine(e.raw.entry, words, env));
        BracesDescribe(st.(current := Some(e.(raw := e.raw.(entry := BodyLine(e.raw.entry, words, env))))), menu', opens, line == "}");
      } else {
        menu' := MenuLineDescribes(st, menu, words, opens, env);
        BracesDescribe(MenuLine(st, words, opens, env), menu', opens, line == "}");
      }
    }
  }

  /** After every prefix of every text, stray braces, nested submenus and unterminated blocks
      included, the machine's state describes a menu. */
  lemma {:induction false} RunDescribes(lines: seq<string>, env: Env) returns (menu: seq<Item>)
    ensures Describes(Run(lines, env), menu)
  {
    if lines == [] {
      menu := [];
    } else {
      var before := RunDescribes(lines[..|lines| - 1], env);
      menu := StepDescribes(Run(lines[..|lines| - 1], env), before, lines[|lines| - 1], env);
    }
  }

  // ---- Numbering ----

  /** Lexicographic order of (top, sub); an entry without a submenu comes first. */
  predicate KeyLess(a: RawEntry, b: RawEntry) {
    a.top < b.top || (a.top == b.top && b.sub.Some? && (a.sub.None? || a.sub.value < b.sub.value))
  }

  ghost predicate WellNumbered(entries: seq<RawEntry>) {
    && (forall i, j :: 0 <= i < j < |entries| ==> KeyLess(entries[i], entries[j]))
    && forall i :: 0 <= i < |entries| ==> FollowsSibling(entries, i)
  }

  /** A child that is not number 0 comes right behind the child before it. */
  ghost predicate FollowsSibling(entries: seq<RawEntry>, i: nat)
    requires i < |entries|
  {
    entries[i].sub.Some? && entries[i].sub.value > 0 ==>
      i > 0 && entries[i - 1].top == entries[i].top && entries[i - 1].sub == Some(entries[i].sub.value - 1)
  }

  /** Every entry belongs to an item before `t`. */
  ghost predicate Below(entries: seq<RawEntry>, t: nat) {
    forall i :: 0 <= i < |entries| ==> entries[i].top < t
  }

  lemma NumberedSnoc(entries: seq<RawEntry>, item: Item, t: nat)
    requires WellNumbered(entries) && Below(entries, t)
    ensures WellNumbered(entries + ItemEntries(item, t)) && Below(entries + ItemEntries(item, t), t + 1)
  {
    hide ItemEntries;
    var last := ItemEntries(item, t);
    var all := entries + last;
    forall i | 0 <= i < |all|
      ensures all[i].top <= t && (i >= |entries| ==> all[i] == last[i - |entries|])
    {
    }
    forall i, j | 0 <= i < j < |all|
      ensures KeyLess(all[i], all[j])
    {
    }
    forall i | 0 <= i < |all|
      ensures FollowsSibling(all, i)
    {
      if i < |entries| {
        assert FollowsSibling(entries, i) && all[i] == entries[i];
        assert i > 0 ==> all[i - 1] == entries[i - 1];
      } else {
        assert all[i] == last[i - |entries|];
        assert i > |entries| ==> all[i - 1] == last[i - |entries| - 1];
      }
    }
  }

  lemma {:induction false} FlattenIsNumbered(menu: seq<Item>)
    ensures WellNumbered(Flatten(menu)) && Below(Flatten(menu), |menu|)
  {
    hide ItemEntries, WellNumbered, Below;
    if menu == [] {
      NoneNumbered();
    } else {
      FlattenIsNumbered(menu[..|menu| - 1]);
      NumberedSnoc(Flatten(menu[..|menu| - 1]), menu[|menu| - 1], |menu| - 1);
    }
  }

  lemma NoneNumbered()
    ensures WellNumbered([]) && Below([], 0)
  {
  }

  /** For every text the entries' (top, sub) keys increase strictly, and the children of each submenu
      are numbered 0, 1, 2, ... without gaps. */
  lemma ParserNumbersEntries(lines: seq<string>, env: Env)
    ensures WellNumbered(Entries(Run(lines, env)))
    ensures forall e :: e in Entries(Run(lines, env)) ==> e.top < Run(lines, env).topCount
  {
    hide Flatten, Run, WellNumbered, Entries;
    var menu := RunDescribes(lines, env);
    FlattenIsNumbered(menu);
  }

  /** A submenu opens outside the menuentry in it, and that outside its own body. */
  lemma BlocksNest(lines: seq<string>, env: Env)
    ensures var st := Run(lines, env);
            && (st.current.Some? ==> st.current.value.depth < st.depth)
            && (st.submenu.Some? ==> st.submenu.value.depth < st.depth)
            && (st.submenu.Some? && st.current.Some? ==> st.submenu.value.depth < st.current.value.depth)
  {
    hide Flatten, Run;
    var menu := RunDescribes(lines, env);
  }

  // ---- What the lines inside an entry mean ----

  /** A device in front of a path is dropped, and a relative path starts at the root. */
  lemma CleanPathMeans(device: string, path: string)
    requires ')' !in device
    ensures CleanPath("(" + device + ")" + path) == if path != [] && path[0] == '/' then path else "/" + path
    ensures path != [] && path[0] != '(' && path[0] != '/' ==> CleanPath(path) == "/" + path
  {
    hide Until;
    var p := "(" + device + ")" + path;
    UntilIs(p, {')'}, |device| + 1);
    assert p[|device| + 2..] == path;
  }

  /** `linux`, `linux16` and `linuxefi` name the kernel, the rest of the line is its command line. */
  lemma KernelLineMeans(e: BootEntry, kw: string, path: string, args: seq<string>, env: Env)
    requires kw in {"linux", "linux16", "linuxefi"}
    ensures var cmdline := Trim(Expand(Join(args, " "), env));
            BodyLine(e, [kw, path] + args, env) ==
            e.(kernel := Some(CleanPath(path)), cmdline := if cmdline == [] then e.cmdline else Some(cmdline))
    ensures BodyLine(e, [kw], env) == e
  {
    hide Trim, Expand, Join, CleanPath;
    assert ([kw, path] + args)[2..] == args;
  }

  /** `initrd`, `initrd16` and `initrdefi` replace the list of initrds. */
  lemma InitrdLineMeans(e: BootEntry, kw: string, paths: seq<string>, env: Env)
    requires kw in {"initrd", "initrd16", "initrdefi"}
    ensures BodyLine(e, [kw] + paths, env).initrd == CleanPaths(paths)
    ensures |CleanPaths(paths)| == |paths| && forall i :: 0 <= i < |paths| ==> CleanPaths(paths)[i] == CleanPath(paths[i])
  {
    hide CleanPath;
    assert ([kw] + paths)[1..] == paths;
    CleansEach(paths);
  }

  lemma {:induction false} CleansEach(paths: seq<string>)
    ensures |CleanPaths(paths)| == |paths| && forall i :: 0 <= i < |paths| ==> CleanPaths(paths)[i] == CleanPath(paths[i])
  {
    hide CleanPath;
    if paths != [] {
      CleansEach(paths[1..]);
    }
  }

  /** `chainloader` names the first word that is no option: a block list as it is, a path cleaned. */
  lemma ChainloaderLineMeans(e: BootEntry, options: seq<string>, target: string, rest: seq<string>, env: Env)
    requires (forall i :: 0 <= i < |options| ==> "-" <= options[i]) && !("-" <= target)
    ensures BodyLine(e, ["chainloader"] + options + [target] + rest, env) ==
            e.(chainloader := Some(if "+" <= target then target else CleanPath(target)))
    ensures BodyLine(e, ["chainloader"] + options, env) == e.(chainloader := None)
  {
    hide CleanPath, Position;
    var words, few := ["chainloader"] + options + [target] + rest, ["chainloader"] + options;
    assert words[1..] == options + [target] + rest && few[1..] == options;
    PositionIs(words[1..], (w: string) => !("-" <= w), |options|);
  }

  // ---- Handing over to BLS ----

  /** Line `i` says `blscfg` while no entry is open. */
  ghost predicate HandsOverAt(lines: seq<string>, i: nat, env: Env)
    requires i < |lines|
  {
    var line := Trim(lines[i]);
    Run(lines[..i], env).current.None? && line != [] && line[0] != '#' && "blscfg" in Words(line)
  }

  lemma StepHandsOver(st: State, raw: string, env: Env)
    ensures var line := Trim(raw);
            Step(st, raw, env).usesBls <==>
            st.usesBls || (st.current.None? && line != [] && line[0] != '#' && "blscfg" in Words(line))
  {
    hide Trim, Words, BodyLine, KeywordOf, NewEntry, MenuId, Expand, WordAt;
  }

  /** A grub.cfg uses BLS exactly when some line outside all entries has the word `blscfg`. */
  lemma {:induction false} UsesBlsIff(lines: seq<string>, env: Env)
    ensures Run(lines, env).usesBls <==> exists i :: 0 <= i < |lines| && HandsOverAt(lines, i, env)
  {
    hide Step, Trim, Words;
    if lines != [] {
      var n := |lines| - 1;
      var init := lines[..n];
      UsesBlsIff(init, env);
      StepHandsOver(Run(init, env), lines[n], env);
      assert HandsOverAt(lines, n, env) <==>
             var line := Trim(lines[n]);
             Run(init, env).current.None? && line != [] && line[0] != '#' && "blscfg" in Words(line);
      forall i | 0 <= i < n
        ensures HandsOverAt(lines, i, env) <==> HandsOverAt(init, i, env)
      {
        assert init[..i] == lines[..i] && init[i] == lines[i];
      }
    }
  }

  /** The file of a distribution that keeps its entries elsewhere. */
  lemma BlsCfgIsUsed(env: Env)
    ensures Run(["insmod blscfg", "blscfg"], env).usesBls
  {
    hide Run, Words, Trim;
    var lines := ["insmod blscfg", "blscfg"];
    var token := Bare("blscfg");
    assert Writable(token);
    WordsUndoSpelling([token]);
    assert LineOf([token]) == "blscfg";
    TrimsToItself("blscfg");
    OtherLineOpensNothing(env);
    assert lines[..1] == ["insmod blscfg"];
    assert HandsOverAt(lines, 1, env);
    UsesBlsIff(lines, env);
  }

  lemma TrimsToItself(s: string)
    requires Tight(s)
    ensures Trim(s) == s
  {
    assert [] + s == s;
    TrimDropsIndent([], s);
  }

  lemma OtherLineOpensNothing(env: Env)
    ensures Run(["insmod blscfg"], env).current.None?
  {
    hide Words, Trim;
    var tokens := [Bare("insmod"), Bare("blscfg")];
    assert Writable(tokens[0]) && Writable(tokens[1]);
    assert tokens[1..] == [tokens[1]];
    assert LineOf(tokens) == "insmod" + [' '] + "blscfg" == "insmod blscfg";
    WordsUndoSpelling(tokens);
    TrimsToItself("insmod blscfg");
    assert ["insmod blscfg"][..0] == [];
    assert Texts(tokens) == ["insmod", "blscfg"];
  }
}
