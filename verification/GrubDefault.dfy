/** Which entry a GRUB `default` names (`resolve_default` and the parser around it, src/boot/grub.rs). */
module GrubDefault {
  import opened Common
  import opened Text
  import opened BootEntries
  import opened Grub

  // ---- The searches over numbered entries ----

  function HasId(name: string): RawEntry -> bool {
    (e: RawEntry) => e.entry.id == Some(name)
  }

  function HasTitle(name: string): RawEntry -> bool {
    (e: RawEntry) => e.entry.title == Some(name)
  }

  function TopLevel(top: nat): RawEntry -> bool {
    (e: RawEntry) => e.top == top && e.sub.None?
  }

  function Under(top: nat): RawEntry -> bool {
    (e: RawEntry) => e.top == top
  }

  function Child(top: nat, sub: nat): RawEntry -> bool {
    (e: RawEntry) => e.top == top && e.sub == Some(sub)
  }

  function ChildNamed(top: nat, name: string): RawEntry -> bool {
    (e: RawEntry) => e.top == top && e.sub.Some? && Named(e.entry.id, e.entry.title, name)
  }

  function TopNamed(name: string): RawEntry -> bool {
    (e: RawEntry) => e.sub.None? && Named(e.entry.id, e.entry.title, name)
  }

  function SubmenuNamed(name: string): RawSubmenu -> bool {
    (s: RawSubmenu) => Named(s.id, s.title, name)
  }

  function TrimAll(pieces: seq<string>): (r: seq<string>)
    ensures |r| == |pieces|
  {
    seq(|pieces|, i requires 0 <= i < |pieces| => Trim(pieces[i]))
  }

  /** The components of a path; an empty spec means the first item. */
  function Components(spec: string): (comps: seq<string>)
    ensures |comps| >= 1
  {
    TrimAll(SplitOn(if spec == [] then "0" else spec, '>'))
  }

  function Flat(entries: seq<RawEntry>, name: string): Option<nat> {
    Or(Position(entries, HasId(name)), Position(entries, HasTitle(name)))
  }

  function FirstOfTop(entries: seq<RawEntry>, top: nat): Option<nat> {
    Or(Position(entries, TopLevel(top)), Position(entries, Under(top)))
  }

  function FindSubmenu(submenus: seq<RawSubmenu>, name: string): Option<nat> {
    match Position(submenus, SubmenuNamed(name))
    case None => None
    case Some(i) => Some(submenus[i].top)
  }

  function FindTop(entries: seq<RawEntry>, name: string): Option<nat> {
    match Position(entries, TopNamed(name))
    case None => None
    case Some(i) => Some(entries[i].top)
  }

  /** `resolve_default`. */
  function ResolveDefault(entries: seq<RawEntry>, submenus: seq<RawSubmenu>, spec: string): Option<nat> {
    var comps := Components(spec);
    var head := comps[0];
    if entries == [] then None
    else if |comps| == 1 then
      match ParseUsize(head) {
        case Some(top) => Or(FirstOfTop(entries, top), Some(0))
        case None =>
          var menu := FindSubmenu(submenus, head);
          Or(Or(Flat(entries, head), if menu.Some? then FirstOfTop(entries, menu.value) else None), Some(0))
      }
    else
      var top := if ParseUsize(head).Some? then ParseUsize(head) else Or(FindTop(entries, head), FindSubmenu(submenus, head));
      match top
      case None => Or(Flat(entries, comps[|comps| - 1]), Some(0))
      case Some(t) =>
        var child := match ParseUsize(comps[1]) {
          case Some(sub) => Position(entries, Child(t, sub))
          case None => Position(entries, ChildNamed(t, comps[1]))
        };
        Or(Or(child, FirstOfTop(entries, t)), Some(0))
  }

  // ---- The same question asked of the menu, one level at a time ----

  function Count(item: Item): nat {
    match item
    case Leaf(_) => 1
    case Sub(_, _, children) => |children|
  }

  /** How many entries come before item `t`. */
  function Offset(menu: seq<Item>, t: nat): nat
    requires t <= |menu|
  {
    |Flatten(menu[..t])|
  }

  /** What item `t` boots: itself, or child number 0. */
  function FirstIn(menu: seq<Item>, t: nat): Option<nat> {
    if t < |menu| && Count(menu[t]) > 0 then Some(Offset(menu, t)) else None
  }

  function LeafNamed(name: string): Item -> bool {
    (item: Item) => item.Leaf? && Named(item.entry.id, item.entry.title, name)
  }

  function SubNamed(name: string): Item -> bool {
    (item: Item) => item.Sub? && Named(item.id, item.title, name)
  }

  function EntryNamed(name: string): BootEntry -> bool {
    (e: BootEntry) => Named(e.id, e.title, name)
  }

  /** The top-level item a component means: by number, else an entry of that name, else a submenu. */
  function ItemOf(menu: seq<Item>, comp: string): Option<nat> {
    match ParseUsize(comp)
    case Some(t) => Some(t)
    case None => Or(Position(menu, LeafNamed(comp)), Position(menu, SubNamed(comp)))
  }

  /** The child of item `t` that a component means. */
  function ChildOf(menu: seq<Item>, t: nat, comp: string): (j: Option<nat>)
    ensures j.Some? ==> t < |menu| && menu[t].Sub? && j.value < |menu[t].children|
  {
    if t >= |menu| || menu[t].Leaf? then None
    else
      match ParseUsize(comp)
      case Some(j) => if j < |menu[t].children| then Some(j) else None
      case None => Position(menu[t].children, EntryNamed(comp))
  }

  function MenuDefault(menu: seq<Item>, spec: string): Option<nat> {
    hide Components, ParseUsize, ItemOf, Flat, FirstIn, Position;
    var comps := Components(spec);
    var head := comps[0];
    if Flatten(menu) == [] then None
    else if |comps| == 1 then
      match ParseUsize(head) {
        case Some(t) => Or(FirstIn(menu, t), Some(0))
        case None =>
          var sub := Position(menu, SubNamed(head));
          Or(Or(Flat(Flatten(menu), head), if sub.Some? then FirstIn(menu, sub.value) else None), Some(0))
      }
    else
      match ItemOf(menu, head)
      case None => Or(Flat(Flatten(menu), comps[|comps| - 1]), Some(0))
      case Some(t) =>
        match ChildOf(menu, t, comps[1])
        case Some(j) => Some(Offset(menu, t) + j)
        case None => Or(FirstIn(menu, t), Some(0))
  }

  // ---- Places ----

  lemma {:induction false} PlaceOf(menu: seq<Item>, i: nat) returns (t: nat, j: nat)
    requires i < |Flatten(menu)|
    ensures t < |menu| && j < Count(menu[t]) && i == Offset(menu, t) + j
    ensures Flatten(menu)[i] == ItemEntries(menu[t], t)[j]
  {
    var init := menu[..|menu| - 1];
    SplitLast(menu);
    if i < |Flatten(init)| {
      t, j := PlaceOf(init, i);
      assert menu[..t] == init[..t];
    } else {
      t, j := |init|, i - |Flatten(init)|;
    }
  }

  lemma {:induction false} EntryAtPlace(menu: seq<Item>, t: nat, j: nat)
    requires t < |menu| && j < Count(menu[t])
    ensures Offset(menu, t) + j < |Flatten(menu)|
    ensures Flatten(menu)[Offset(menu, t) + j] == ItemEntries(menu[t], t)[j]
  {
    hide Flatten, Submenus;
    var init := menu[..|menu| - 1];
    SplitLast(menu);
    if t < |init| {
      assert menu[..t] == init[..t];
      EntryAtPlace(init, t, j);
    }
  }

  lemma {:induction false} OffsetsGrow(menu: seq<Item>, t: nat, u: nat)
    requires t < u <= |menu|
    ensures Offset(menu, t) + Count(menu[t]) <= Offset(menu, u)
  {
    var init := menu[..u];
    SplitLast(init);
    assert init[..u - 1] == menu[..u - 1];
    assert Offset(menu, u) == Offset(menu, u - 1) + Count(menu[u - 1]);
    if t < u - 1 {
      OffsetsGrow(menu, t, u - 1);
    }
  }

  // ---- The searches find what the menu says ----

  lemma ChildSearch(menu: seq<Item>, t: nat, j: nat)
    ensures Position(Flatten(menu), Child(t, j)) ==
            if t < |menu| && menu[t].Sub? && j < |menu[t].children| then Some(Offset(menu, t) + j) else None
  {
    hide Flatten, Offset;
    var all := Flatten(menu);
    var found := Position(all, Child(t, j));
    if found.Some? {
      var t', j' := PlaceOf(menu, found.value);
    } else if t < |menu| && menu[t].Sub? && j < |menu[t].children| {
      EntryAtPlace(menu, t, j);
    }
  }

  lemma ChildNameSearch(menu: seq<Item>, t: nat, name: string)
    ensures Position(Flatten(menu), ChildNamed(t, name)) ==
            if t < |menu| && menu[t].Sub? && Position(menu[t].children, EntryNamed(name)).Some?
            then Some(Offset(menu, t) + Position(menu[t].children, EntryNamed(name)).value) else None
  {
    hide Flatten, Offset, Position, ItemEntries;
    var all := Flatten(menu);
    if t < |menu| && menu[t].Sub? && Position(menu[t].children, EntryNamed(name)).Some? {
      var first := Position(menu[t].children, EntryNamed(name)).value;
      ChildPlace(menu, t, first);
      assert ChildNamed(t, name)(all[Offset(menu, t) + first]);
      forall i | 0 <= i < Offset(menu, t) + first
        ensures !ChildNamed(t, name)(all[i])
      {
        NamedChildIsChild(menu, t, name, i);
      }
      PositionIs(all, ChildNamed(t, name), Offset(menu, t) + first);
    } else {
      forall i | 0 <= i < |all|
        ensures !ChildNamed(t, name)(all[i])
      {
        NamedChildIsChild(menu, t, name, i);
      }
    }
  }

  lemma ChildPlace(menu: seq<Item>, t: nat, j: nat)
    requires t < |menu| && menu[t].Sub? && j < |menu[t].children|
    ensures Offset(menu, t) + j < |Flatten(menu)|
    ensures Flatten(menu)[Offset(menu, t) + j] == RawEntry(menu[t].children[j], t, Some(j))
  {
    hide Flatten, Offset;
    EntryAtPlace(menu, t, j);
  }

  /** An entry that passes for a named child of item `t` is one. */
  lemma NamedChildIsChild(menu: seq<Item>, t: nat, name: string, i: nat)
    requires i < |Flatten(menu)|
    ensures ChildNamed(t, name)(Flatten(menu)[i]) ==>
              && t < |menu| && menu[t].Sub? && Offset(menu, t) <= i < Offset(menu, t) + |menu[t].children|
              && EntryNamed(name)(menu[t].children[i - Offset(menu, t)])
  {
    hide Flatten, Offset;
    var t', j' := PlaceOf(menu, i);
  }

  lemma FirstSearch(menu: seq<Item>, t: nat)
    ensures FirstOfTop(Flatten(menu), t) == FirstIn(menu, t)
  {
    hide Flatten, Offset;
    var all := Flatten(menu);
    var exact, any := Position(all, TopLevel(t)), Position(all, Under(t));
    if exact.Some? {
      var t', j' := PlaceOf(menu, exact.value);
    } else if any.Some? {
      var t', j' := PlaceOf(menu, any.value);
      EntryAtPlace(menu, t, 0);
      assert Under(t)(all[Offset(menu, t)]);
    }
    if t < |menu| && Count(menu[t]) > 0 {
      EntryAtPlace(menu, t, 0);
      assert Under(t)(all[Offset(menu, t)]);
    }
  }

  lemma TopNameSearch(menu: seq<Item>, name: string)
    ensures FindTop(Flatten(menu), name) == Position(menu, LeafNamed(name))
  {
    hide Flatten, Offset;
    var all := Flatten(menu);
    var found, first := Position(all, TopNamed(name)), Position(menu, LeafNamed(name));
    if first.Some? {
      EntryAtPlace(menu, first.value, 0);
      assert TopNamed(name)(all[Offset(menu, first.value)]);
    }
    if found.Some? {
      var t, j := PlaceOf(menu, found.value);
      assert LeafNamed(name)(menu[t]);
      if first.value < t {
        OffsetsGrow(menu, first.value, t);
      }
    }
  }

  lemma {:induction false} SubmenuSearch(menu: seq<Item>, name: string)
    ensures FindSubmenu(Submenus(menu), name) == Position(menu, SubNamed(name))
    ensures forall i :: 0 <= i < |Submenus(menu)| ==> Submenus(menu)[i].top < |menu|
  {
    hide Position, Flatten;
    if menu != [] {
      var init, last := menu[..|menu| - 1], menu[|menu| - 1];
      SubmenuSearch(init, name);
      SplitLast(menu);
      PositionConcat(init, [last], SubNamed(name));
      PositionOne(last, SubNamed(name));
      if last.Sub? {
        var sub := RawSubmenu(|init|, last.id, last.title);
        PositionConcat(Submenus(init), [sub], SubmenuNamed(name));
        PositionOne(sub, SubmenuNamed(name));
      } else {
        assert Submenus(init) + [] == Submenus(init);
      }
    }
  }

  /** Searching the numbered entries gives what looking the path up in the menu, one level at a
      time, gives, for every menu and every spec. */
  lemma ResolvesInMenu(menu: seq<Item>, spec: string)
    ensures ResolveDefault(Flatten(menu), Submenus(menu), spec) == MenuDefault(menu, spec)
  {
    hide Flatten, Submenus, Components, ParseUsize, FirstIn, FirstOfTop, Flat, FindTop, FindSubmenu, Offset;
    var comps := Components(spec);
    var head := comps[0];
    SubmenuSearch(menu, head);
    TopNameSearch(menu, head);
    if |comps| == 1 {
      if ParseUsize(head).Some? {
        FirstSearch(menu, ParseUsize(head).value);
      } else if Position(menu, SubNamed(head)).Some? {
        FirstSearch(menu, Position(menu, SubNamed(head)).value);
      }
    } else if ItemOf(menu, head).Some? {
      var t := ItemOf(menu, head).value;
      FirstSearch(menu, t);
      ChildNameSearch(menu, t, comps[1]);
      if ParseUsize(comps[1]).Some? {
        ChildSearch(menu, t, ParseUsize(comps[1]).value);
      }
    }
  }

  /** The default is an index into the entries, and there is one unless the menu is empty. */
  lemma DefaultIsInRange(entries: seq<RawEntry>, submenus: seq<RawSubmenu>, spec: string)
    ensures var d := ResolveDefault(entries, submenus, spec);
            if entries == [] then d == None else d.Some? && d.value < |entries|
  {
    hide Components, ParseUsize;
  }

  /** A path whose components exist selects exactly that child, by name or by number at each level. */
  lemma PathSelectsChild(menu: seq<Item>, spec: string, t: nat, j: nat)
    requires |Components(spec)| >= 2
    requires ItemOf(menu, Components(spec)[0]) == Some(t) && ChildOf(menu, t, Components(spec)[1]) == Some(j)
    ensures var d := ResolveDefault(Flatten(menu), Submenus(menu), spec);
            d.Some? && d.value < |Flatten(menu)| && Flatten(menu)[d.value] == RawEntry(menu[t].children[j], t, Some(j))
  {
    hide Components, ItemOf, ChildOf, Flatten, Submenus;
    ResolvesInMenu(menu, spec);
    EntryAtPlace(menu, t, j);
  }

  /** A submenu named alone boots its child number 0, provided no entry has that id or title. */
  lemma SubmenuAloneSelectsFirstChild(menu: seq<Item>, spec: string, t: nat)
    requires |Components(spec)| == 1 && t < |menu| && menu[t].Sub? && menu[t].children != []
    requires var name := Components(spec)[0];
             || ParseUsize(name) == Some(t)
             || (ParseUsize(name) == None && Flat(Flatten(menu), name) == None && Position(menu, SubNamed(name)) == Some(t))
    ensures var d := ResolveDefault(Flatten(menu), Submenus(menu), spec);
            d.Some? && d.value < |Flatten(menu)| && Flatten(menu)[d.value] == RawEntry(menu[t].children[0], t, Some(0))
  {
    hide Components, Flatten, Submenus, ParseUsize;
    ResolvesInMenu(menu, spec);
    EntryAtPlace(menu, t, 0);
  }

  // ---- The parser ----

  function EntriesOf(raw: seq<RawEntry>): (r: seq<BootEntry>)
    ensures |r| == |raw| && forall i :: 0 <= i < |r| ==> r[i] == raw[i].entry
  {
    seq(|raw|, i requires 0 <= i < |raw| => raw[i].entry)
  }

  datatype GrubScan = GrubScan(scan: BootEntries.Scan, usesBls: bool)

  /** `parse_str`: the machine over all lines, an unterminated entry salvaged, the default resolved. */
  function Parse(text: string, env: Env): GrubScan {
    var st := Run(Lines(text), env);
    var all := Entries(st);
    var spec := if st.defaultSpec.Some? then st.defaultSpec.value else "0";
    GrubScan(BootEntries.Scan(EntriesOf(all), ResolveDefault(all, st.submenus, spec)), st.usesBls)
  }

  lemma ParsedDefaultOk(text: string, env: Env)
    ensures DefaultOk(Parse(text, env).scan)
  {
    hide Run, ResolveDefault;
    var st := Run(Lines(text), env);
    DefaultIsInRange(Entries(st), st.submenus, if st.defaultSpec.Some? then st.defaultSpec.value else "0");
  }

  /** For every text there is a menu that the entries list in order and in which the default is what
      the `default` setting names. */
  lemma ParsedDefaultIsTheMenus(text: string, env: Env) returns (menu: seq<Item>)
    ensures var st := Run(Lines(text), env);
            && Parse(text, env).scan.entries == EntriesOf(Flatten(menu))
            && Parse(text, env).scan.default == MenuDefault(menu, if st.defaultSpec.Some? then st.defaultSpec.value else "0")
  {
    hide Run, Flatten, Submenus, MenuDefault, ResolveDefault;
    var st := Run(Lines(text), env);
    menu := RunDescribes(Lines(text), env);
    ResolvesInMenu(menu, if st.defaultSpec.Some? then st.defaultSpec.value else "0");
  }

  /** The machine's last step beside its run so far. */
  lemma RunSnoc(lines: seq<string>, i: nat, env: Env)
    requires i < |lines|
    ensures Run(lines[..i + 1], env) == Step(Run(lines[..i], env), lines[i], env)
  {
    assert lines[..i + 1][..i] == lines[..i];
  }

  lemma StepIs(st: State, rawLine: string, env: Env)
    ensures var line := Trim(rawLine); var words := Words(line);
            Step(st, rawLine, env) ==
            if line == [] || line[0] == '#' || words == [] then st
            else
              var opens := line[|line| - 1] == '{';
              Braces(ReadWords(st, words, opens, env), opens, line == "}")
  {
    hide Trim, Words, ReadWords, Braces;
  }

  /** `parse_str`: the loop over the lines, its state in variables updated in place. */
  method ParseStr(text: string, env: Env) returns (scan: GrubScan)
    ensures scan == Parse(text, env)
  {
    hide Step, Trim, Words, BodyLine, KeywordOf, HandsOver, NewEntry, MenuId, WordAt, Expand, Lines, ResolveDefault, Run, Position, EntriesOf;
    hide IsSpace, Flatten, Submenus, Children;
    var lines := Lines(text);
    var raw: seq<RawEntry> := [];
    var submenus: seq<RawSubmenu> := [];
    var defaultSpec: Option<string> := None;
    var usesBls, depth, topCount := false, 0, 0;
    var submenu: Option<OpenMenu> := None;
    var current: Option<OpenEntry> := None;
    assert lines[..0] == [];
    RunNil(env);
    for n := 0 to |lines|
      invariant State(raw, submenus, defaultSpec, usesBls, depth, topCount, submenu, current) == Run(lines[..n], env)
    {
      RunSnoc(lines, n, env);
      StepIs(Run(lines[..n], env), lines[n], env);
      ghost var before := Run(lines[..n], env);
      var line := Trim(lines[n]);
      if line == [] || line[0] == '#' {
        continue;
      }
      var words := Words(line);
      if words == [] {
        continue;
      }
      var opens := line[|line| - 1] == '{';
      if current.Some? {
        var open := current.value;
        current := Some(open.(raw := open.raw.(entry := BodyLine(open.raw.entry, words, env))));
      } else {
        match KeywordOf(words, opens) {
          case MenuEntry =>
            if submenu.Some? {
              var menu := submenu.value;
              submenu := Some(menu.(next := menu.next + 1));
              current := Some(OpenEntry(depth, RawEntry(NewEntry(words), menu.top, Some(menu.next))));
            } else {
              current := Some(OpenEntry(depth, RawEntry(NewEntry(words), topCount, None)));
              topCount := topCount + 1;
            }
          case Submenu =>
            submenus := submenus + [RawSubmenu(topCount, MenuId(words), WordAt(words, 1))];
            submenu := Some(OpenMenu(depth, topCount, 0));
            topCount := topCount + 1;
          case SetDefault(spec) => defaultSpec := Some(Expand(spec, env));
          case Other =>
        }
        if HandsOver(words) {
          usesBls := true;
        }
      }
      ghost var mid := ReadWords(before, words, opens, env);
      assert State(raw, submenus, defaultSpec, usesBls, depth, topCount, submenu, current) == mid;
      if opens {
        depth := depth + 1;
      } else if line == "}" {
        depth := depth - 1;
        if current.Some? && current.value.depth == depth {
          raw := raw + [current.value.raw];
          current := None;
        } else if submenu.Some? && submenu.value.depth == depth {
          submenu := None;
        }
      }
    }
    assert lines[..|lines|] == lines;
    if current.Some? {
      raw := raw + [current.value.raw];
    }
    assert raw == Entries(Run(lines, env));
    var spec := if defaultSpec.Some? then defaultSpec.value else "0";
    scan := GrubScan(BootEntries.Scan(EntriesOf(raw), ResolveDefault(raw, submenus, spec)), usesBls);
  }

  lemma RunNil(env: Env)
    ensures Run([], env) == START
  {
  }

  // ---- What a spec means ----

  /** The components of a path are what is between its angle brackets, blanks around them dropped. */
  lemma ComponentsOf(pieces: seq<string>)
    requires pieces != [] && (forall i :: 0 <= i < |pieces| ==> '>' !in pieces[i]) && pieces != [""]
    ensures |Components(Join(pieces, ">"))| == |pieces|
    ensures forall i :: 0 <= i < |pieces| ==> Components(Join(pieces, ">"))[i] == Trim(pieces[i])
    ensures Components("") == Components("0")
  {
    hide SplitOn, Trim;
    SplitUndoesJoin(pieces, '>');
    assert [">"[0]] == ">";
    NoSpecIsZero();
  }

  /** An empty spec is read like 0. */
  lemma NoSpecIsZero()
    ensures Components("") == Components("0")
  {
    hide SplitOn, TrimAll;
  }

  /** `N>M` selects child M of item N, however the menu is made. */
  lemma NumbersSelect(menu: seq<Item>, t: nat, j: nat)
    requires t < |menu| < USIZE && menu[t].Sub? && j < |menu[t].children| < USIZE
    ensures var d := ResolveDefault(Flatten(menu), Submenus(menu), ShowDec(t) + ">" + ShowDec(j));
            d.Some? && d.value < |Flatten(menu)| && Flatten(menu)[d.value] == RawEntry(menu[t].children[j], t, Some(j))
  {
    hide Components, Flatten, Submenus, ParseUsize, ShowDec, ResolveDefault, Position;
    var spec, pieces := ShowDec(t) + ">" + ShowDec(j), [ShowDec(t), ShowDec(j)];
    assert pieces[1..] == [ShowDec(j)];
    assert Join(pieces, ">") == spec;
    DigitsAreTight(t);
    DigitsAreTight(j);
    ComponentsOf(pieces);
    UsizeRoundTrip(t);
    UsizeRoundTrip(j);
    PathSelectsChild(menu, spec, t, j);
  }

  lemma DigitsAreTight(n: nat)
    ensures '>' !in ShowDec(n) && Trim(ShowDec(n)) == ShowDec(n)
  {
    hide ShowDec, DecValue, Trim;
    var s := ShowDec(n);
    assert forall c :: c in s ==> IsDigit(c);
    assert IsDigit(s[0]) && IsDigit(s[|s| - 1]);
    TrimsToItself(s);
  }

  /** A name alone is an entry's id before it is an entry's title, and that before a submenu's name;
      each time the first entry that has it. */
  lemma NameSelects(menu: seq<Item>, name: string, k: nat)
    requires Trim(name) == name && name != [] && '>' !in name && ParseUsize(name) == None
    requires k < |Flatten(menu)|
    requires var all := Flatten(menu);
             || (all[k].entry.id == Some(name) && forall i :: 0 <= i < k ==> all[i].entry.id != Some(name))
             || (all[k].entry.title == Some(name) && (forall i :: 0 <= i < k ==> all[i].entry.title != Some(name))
                 && forall i :: 0 <= i < |all| ==> all[i].entry.id != Some(name))
    ensures ResolveDefault(Flatten(menu), Submenus(menu), name) == Some(k)
  {
    hide Components, Flatten, Submenus, ParseUsize, Trim, Position, FirstOfTop, FindSubmenu;
    var all := Flatten(menu);
    ComponentsOf([name]);
    assert Join([name], ">") == name;
    if all[k].entry.id == Some(name) {
      PositionIs(all, HasId(name), k);
    } else {
      PositionIs(all, HasTitle(name), k);
    }
  }
}
