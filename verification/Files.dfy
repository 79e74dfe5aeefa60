/** A mounted filesystem as the boot scan sees it (`FileSystem`, src/fsys/mod.rs): what can be read,
    listed and resolved. */
module Files {
  import opened Common
  import opened Text

  datatype DirEntry = DirEntry(name: string, isDir: bool)

  /** Text of every readable file, listing of every readable directory, targets of the symbolic
      links, and the names that exist (readable or not). */
  datatype FileSystem = FileSystem(
    texts: map<string, string>,
    listings: map<string, seq<DirEntry>>,
    links: map<string, string>,
    names: set<string>)

  const PREFIXES: seq<string> := ["", "/boot"]

  /** The part of a path after its last slash. */
  function Base(path: string): string {
    path[AfterLast(path, '/')..]
  }

  /** The part of a path before its last slash, if it has one. */
  function Parent(path: string): string {
    var n := AfterLast(path, '/');
    if n == 0 then [] else path[..n - 1]
  }

  predicate HasPart(s: string, part: string) {
    exists i :: 0 <= i <= |s| && part <= From(s, i)
  }

  function From(s: string, i: nat): string
    requires i <= |s|
  {
    s[i..]
  }

  /** A path's last part, and what is before it. */
  lemma PathParts(dir: string, name: string)
    requires forall i :: 0 <= i < |name| ==> name[i] != '/'
    ensures Base(dir + "/" + name) == name && Parent(dir + "/" + name) == dir && Base(name) == name
  {
    hide AfterLast;
    var path := dir + "/" + name;
    AfterLastIs(path, '/', |dir| + 1);
    AfterLastIs(name, '/', 0);
    assert path[..|dir|] == dir && path[|dir| + 1..] == name;
  }

  lemma HasPartIff(s: string, part: string)
    ensures HasPart(s, part) <==> exists a, b :: s == a + part + b
  {
    if HasPart(s, part) {
      var i :| 0 <= i <= |s| && part <= From(s, i);
      assert s == s[..i] + part + s[i + |part|..];
    }
    if a, b :| s == a + part + b {
      assert From(s, |a|) == part + b;
    }
  }
}
