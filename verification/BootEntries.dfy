/** The entities that boot configurations are read into (src/boot/mod.rs). */
module BootEntries {
  import opened Common
  import opened Text

  datatype Source = Grub | Bls | Extlinux | Fallback | Windows

  datatype Firmware = Uefi | Bios | Both

  datatype WindowsBoot = WindowsBoot(firmware: Firmware, arch: Option<string>, loader: Option<string>)

  datatype BootEntry = BootEntry(
    title: Option<string>,
    id: Option<string>,
    kernel: Option<string>,
    initrd: seq<string>,
    cmdline: Option<string>,
    version: Option<string>,
    source: Source,
    windows: Option<WindowsBoot>,
    chainloader: Option<string>)

  const BLANK := BootEntry(None, None, None, [], None, None, Fallback, None, None)

  /** `title` or `id` as a menu path component may name an entry. */
  predicate Named(id: Option<string>, title: Option<string>, name: string) {
    id == Some(name) || title == Some(name)
  }

  /** A menu: entries in order and the index of the one that would boot. */
  datatype Scan = Scan(entries: seq<BootEntry>, default: Option<nat>)

  /** There is a default exactly when there is an entry, and it is one of them. */
  predicate DefaultOk(s: Scan) {
    if s.entries == [] then s.default == None else s.default.Some? && s.default.value < |s.entries|
  }

  /** Rust's `Iterator::position`. */
  function Position<T>(xs: seq<T>, p: T -> bool): (r: Option<nat>)
    ensures r.Some? ==> r.value < |xs| && p(xs[r.value]) && forall i :: 0 <= i < r.value ==> !p(xs[i])
    ensures r.None? ==> forall i :: 0 <= i < |xs| ==> !p(xs[i])
  {
    if xs == [] then None
    else if p(xs[0]) then Some(0)
    else
      var r := Position(xs[1..], p);
      assert forall i :: 0 < i < |xs| ==> xs[i] == xs[1..][i - 1];
      if r.Some? then Some(r.value + 1) else None
  }

  lemma PositionIs<T>(xs: seq<T>, p: T -> bool, k: nat)
    requires k < |xs| && p(xs[k]) && forall i :: 0 <= i < k ==> !p(xs[i])
    ensures Position(xs, p) == Some(k)
  {
    hide Position;
  }

  lemma PositionOne<T>(x: T, p: T -> bool)
    ensures Position([x], p) == if p(x) then Some(0) else None
  {
  }

  lemma PositionConcat<T>(a: seq<T>, b: seq<T>, p: T -> bool)
    ensures Position(a + b, p) ==
            if Position(a, p).Some? then Position(a, p)
            else if Position(b, p).Some? then Some(|a| + Position(b, p).value) else None
  {
    hide Position;
    var r, x, y := Position(a + b, p), Position(a, p), Position(b, p);
    if x.Some? {
      PositionIs(a + b, p, x.value);
    } else if y.Some? {
      PositionIs(a + b, p, |a| + y.value);
    } else {
      assert forall i :: 0 <= i < |a + b| ==> !p((a + b)[i]);
    }
  }

  function Or<T>(a: Option<T>, b: Option<T>): Option<T> {
    if a.Some? then a else b
  }

  // ---- Environment variables ----

  type Env = map<string, string>

  predicate IsNameChar(c: char) {
    IsAlpha(c) || IsDigit(c) || c == '_'
  }

  function NameLen(s: string): (n: nat)
    ensures n <= |s|
  {
    if s != [] && IsNameChar(s[0]) then 1 + NameLen(s[1..]) else 0
  }

  function Value(name: string, env: Env): string {
    if name == [] then "$" else if name in env then env[name] else ""
  }

  /** `expand`: `$var` and `${var}`, unknown variables as nothing. */
  function Expand(s: string, env: Env): string
    decreases |s|
  {
    if s == [] then []
    else if s[0] != '$' then [s[0]] + Expand(s[1..], env)
    else if |s| > 1 && s[1] == '{' then
      var n := Until(s[2..], {'}'});
      Value(s[2..2 + n], env) + Expand(s[Min(2 + n + 1, |s|)..], env)
    else
      var n := NameLen(s[1..]);
      Value(s[1..1 + n], env) + Expand(s[1 + n..], env)
  }

  // ---- What expansion means ----

  lemma {:induction false} NameEnds(name: string, rest: string)
    requires (forall i :: 0 <= i < |name| ==> IsNameChar(name[i])) && (rest != [] ==> !IsNameChar(rest[0]))
    ensures NameLen(name + rest) == |name|
  {
    if name == [] {
      assert name + rest == rest;
    } else {
      assert (name + rest)[1..] == name[1..] + rest;
      NameEnds(name[1..], rest);
    }
  }

  /** `$name` becomes the variable's value, or nothing when there is none; the name is as long as it can be. */
  lemma ExpandsName(name: string, rest: string, env: Env)
    requires name != [] && (forall i :: 0 <= i < |name| ==> IsNameChar(name[i])) && (rest != [] ==> !IsNameChar(rest[0]))
    ensures Expand("$" + name + rest, env) == (if name in env then env[name] else "") + Expand(rest, env)
  {
    hide NameLen, Until;
    var s := "$" + name + rest;
    assert s[1..] == name + rest && s[1..1 + |name|] == name && s[1 + |name|..] == rest;
    assert s[1] == name[0];
    NameEnds(name, rest);
  }

  /** `${name}` likewise, up to the brace. */
  lemma ExpandsBraces(name: string, rest: string, env: Env)
    requires name != [] && '}' !in name
    ensures Expand("${" + name + "}" + rest, env) == (if name in env then env[name] else "") + Expand(rest, env)
  {
    hide Until, NameLen;
    var s := "${" + name + "}" + rest;
    var n := |name|;
    assert s[2..] == name + "}" + rest;
    UntilIs(s[2..], {'}'}, n);
    assert s[2..2 + n] == name && s[n + 3..] == rest && Min(2 + n + 1, |s|) == n + 3;
  }

  /** Any other text stands for itself. */
  lemma {:induction false} ExpandsText(text: string, rest: string, env: Env)
    requires '$' !in text
    ensures Expand(text + rest, env) == text + Expand(rest, env)
  {
    if text == [] {
      assert text + rest == rest;
    } else {
      assert (text + rest)[1..] == text[1..] + rest;
      ExpandsText(text[1..], rest, env);
    }
  }

  /** A dollar sign without a name does, too. */
  lemma ExpandsDollar(rest: string, env: Env)
    requires rest != [] ==> !IsNameChar(rest[0]) && rest[0] != '{'
    ensures Expand("$" + rest, env) == "$" + Expand(rest, env)
  {
    hide Until;
    var s := "$" + rest;
    assert s[1..] == rest && s[1..1] == [];
  }
}
