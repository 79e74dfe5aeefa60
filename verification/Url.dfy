/** HTTP URLs as the fetcher parses and prints them (`Url`, src/source/http.rs). */
module Urls {
  import opened Common
  import opened Text

  datatype Url = Url(https: bool, host: string, port: nat, path: string)

  function DefaultPort(https: bool): nat {
    if https then 443 else 80
  }

  /** Host and port of an authority without userinfo; None for a port beyond 16 bits. */
  function ParseHost(authority: string, https: bool): Option<(string, nat)> {
    var n := AfterLast(authority, ':');
    var port := authority[n..];
    if n == 0 || port == [] || !AllDigits(port) then Some((authority, DefaultPort(https)))
    else if DecValue(port) < 0x1_0000 then Some((authority[..n - 1], DecValue(port)))
    else None
  }

  function ParseRest(rest: string, https: bool): Option<Url> {
    var n := Until(rest, {'/', '?', '#'});
    var authority, tail := rest[..n], if n == |rest| then "/" else rest[n..];
    match ParseHost(authority[AfterLast(authority, '@')..], https)
    case None => None
    case Some((host, port)) =>
      if host == [] then None
      else
        var path := tail[..Until(tail, {'#'})];
        Some(Url(https, host, port, if path == [] then "/" else path))
  }

  const HTTP: string := "http://"
  const HTTPS: string := "https://"

  /** `Url::parse`, None for every error. */
  function Parse(s: string): Option<Url> {
    if HTTPS <= s then ParseRest(s[8..], true)
    else if HTTP <= s then ParseRest(s[7..], false)
    else None
  }

  function Authority(u: Url): string {
    u.host + ":" + ShowDec(u.port)
  }

  /** `Url::display`. */
  function Display(u: Url): string {
    (if u.https then HTTPS else HTTP) + (Authority(u) + u.path)
  }

  /** The URLs that parsing can produce: a host free of delimiters and userinfo, a 16-bit port, a
      path that starts with a slash or a query and has no fragment. */
  predicate WellFormed(u: Url) {
    && u.host != []
    && (forall i :: 0 <= i < |u.host| ==> u.host[i] !in {'/', '?', '#', '@'})
    && u.port < 0x1_0000
    && u.path != [] && u.path[0] in {'/', '?'}
    && forall i :: 0 <= i < |u.path| ==> u.path[i] != '#'
  }

  lemma ParsedHost(authority: string, https: bool)
    requires ParseHost(authority, https).Some?
    ensures ParseHost(authority, https).value.0 <= authority && ParseHost(authority, https).value.1 < 0x1_0000
  {
    hide AfterLast, DecValue;
  }

  lemma ParsedRest(rest: string, https: bool)
    requires ParseRest(rest, https).Some?
    ensures WellFormed(ParseRest(rest, https).value)
  {
    hide Until, AfterLast, ParseHost;
    var authority := rest[..Until(rest, {'/', '?', '#'})];
    var n := AfterLast(authority, '@');
    var plain := authority[n..];
    assert forall i :: 0 <= i < |plain| ==> plain[i] == authority[n + i];
    ParsedHost(plain, https);
    var host := ParseHost(plain, https).value.0;
    assert forall i :: 0 <= i < |host| ==> host[i] == plain[i];
  }

  lemma ParsedIsWellFormed(s: string)
    requires Parse(s).Some?
    ensures WellFormed(Parse(s).value)
  {
    hide ParseRest, WellFormed;
    ParsedRest(if HTTPS <= s then s[8..] else s[7..], HTTPS <= s);
  }

  lemma DisplayedHostParses(u: Url)
    requires WellFormed(u)
    ensures ParseHost(Authority(u), u.https) == Some((u.host, u.port))
  {
    hide ShowDec, AfterLast, DecValue;
    var dec := ShowDec(u.port);
    var a := Authority(u);
    assert forall i :: |u.host| + 1 <= i < |a| ==> a[i] == dec[i - |u.host| - 1];
    AfterLastIs(a, ':', |u.host| + 1);
    assert a[|u.host| + 1..] == dec && a[..|u.host|] == u.host;
  }

  lemma DisplayedRestParses(u: Url)
    requires WellFormed(u)
    ensures ParseRest(Authority(u) + u.path, u.https) == Some(u)
  {
    hide ShowDec, AfterLast, Until, ParseHost, DecValue;
    var a, dec := Authority(u), ShowDec(u.port);
    var rest := a + u.path;
    assert forall i :: 0 <= i < |a| ==> a[i] == if i < |u.host| then u.host[i] else if i == |u.host| then ':' else dec[i - |u.host| - 1];
    UntilIs(rest, {'/', '?', '#'}, |a|);
    assert rest[..|a|] == a && rest[|a|..] == u.path;
    AfterLastIs(a, '@', 0);
    assert a[0..] == a;
    DisplayedHostParses(u);
    UntilIs(u.path, {'#'}, |u.path|);
    assert u.path[..|u.path|] == u.path;
  }

  lemma DisplayedParses(u: Url)
    requires WellFormed(u)
    ensures Parse(Display(u)) == Some(u)
  {
    hide ParseRest, WellFormed, Authority;
    var rest := Authority(u) + u.path;
    DisplayedRestParses(u);
    if u.https {
      assert Display(u)[8..] == rest;
    } else {
      assert Display(u)[7..] == rest;
      assert Display(u)[4] == ':' && HTTPS[4] == 's';
    }
  }

  /** Parsing undoes displaying exactly on the well-formed URLs. */
  lemma ParseUndoesDisplayIff(u: Url)
    ensures Parse(Display(u)) == Some(u) <==> WellFormed(u)
  {
    if WellFormed(u) {
      DisplayedParses(u);
    } else if Parse(Display(u)) == Some(u) {
      ParsedIsWellFormed(Display(u));
    }
  }

  /** Whatever text parses, displaying the result and parsing again gives the same URL. */
  lemma DisplayIsFaithful(s: string)
    requires Parse(s).Some?
    ensures Parse(Display(Parse(s).value)) == Parse(s)
  {
    ParsedIsWellFormed(s);
    DisplayedParses(Parse(s).value);
  }

  /** What follows the authority of a URL. */
  function AfterAuthority(s: string): string
    requires HTTPS <= s || HTTP <= s
  {
    var rest := if HTTPS <= s then s[8..] else s[7..];
    rest[Until(rest, {'/', '?', '#'})..]
  }

  lemma RestPath(rest: string, https: bool)
    requires ParseRest(rest, https).Some?
    ensures var path := ParseRest(rest, https).value.path; var after := rest[Until(rest, {'/', '?', '#'})..];
            path[..1] == if "?" <= after then "?" else "/"
  {
    hide ParseHost, AfterLast, Until;
    var n := Until(rest, {'/', '?', '#'});
    if n < |rest| {
      var tail := rest[n..];
      assert tail[0] == rest[n];
      FirstKept(tail);
    } else {
      FirstKept("/");
    }
  }

  /** The parsed path starts with a slash exactly when no query follows the authority at once. */
  lemma PathStartsWithSlashIff(s: string)
    requires Parse(s).Some?
    ensures Parse(s).value.path[..1] == "/" <==> !("?" <= AfterAuthority(s))
    ensures "?" <= AfterAuthority(s) ==> Parse(s).value.path[..1] == "?"
  {
    hide ParseRest, Until;
    RestPath(if HTTPS <= s then s[8..] else s[7..], HTTPS <= s);
  }

  lemma FirstKept(tail: string)
    requires tail != []
    ensures var path := tail[..Until(tail, {'#'})]; if tail[0] == '#' then path == [] else path[..1] == tail[..1]
  {
  }

  /** A query right behind the host becomes a path without a slash. */
  lemma QueryOnlyPath()
    ensures Parse("http://h?q") == Some(Url(false, "h", 80, "?q"))
  {
    hide Until, AfterLast;
    var s := "http://h?q";
    assert !(HTTPS <= s) by {
      assert s[4] == ':' && HTTPS[4] == 's';
    }
    assert s[7..] == "h?q";
    UntilIs("h?q", {'/', '?', '#'}, 1);
    assert "h?q"[..1] == "h" && "h?q"[1..] == "?q";
    AfterLastIs("h", '@', 0);
    AfterLastIs("h", ':', 0);
    assert "h"[0..] == "h";
    UntilIs("?q", {'#'}, 2);
    assert "?q"[..2] == "?q";
  }

  predicate Delimiter(c: char) {
    c == '/' || c == '?' || c == '#'
  }

  predicate NoDelimiter(s: string) {
    forall i :: 0 <= i < |s| ==> !Delimiter(s[i])
  }

  /** A URL's text: scheme, perhaps userinfo, host, perhaps a port, a path or query, perhaps a fragment. */
  function Spelled(https: bool, userinfo: string, host: string, port: Option<nat>, path: string, fragment: string): string {
    (if https then "https://" else "http://") + (SpelledAuthority(userinfo, host, port) + (path + fragment))
  }

  function SpelledAuthority(userinfo: string, host: string, port: Option<nat>): string {
    (if userinfo == [] then [] else userinfo + "@") + SpelledHost(host, port)
  }

  function SpelledHost(host: string, port: Option<nat>): string {
    host + if port.Some? then ":" + ShowDec(port.value) else ""
  }

  predicate Spellable(userinfo: string, host: string, port: Option<nat>, path: string, fragment: string) {
    && NoDelimiter(userinfo) && host != [] && NoDelimiter(host) && '@' !in host
    && (port.None? ==> ':' !in host) && (port.Some? ==> port.value < 0x1_0000)
    && (path == [] || path[0] == '/' || path[0] == '?') && '#' !in path
    && (fragment == [] || fragment[0] == '#')
  }

  lemma HostIsRead(https: bool, host: string, port: Option<nat>)
    requires host != [] && (port.None? ==> ':' !in host) && (port.Some? ==> port.value < 0x1_0000)
    ensures ParseHost(SpelledHost(host, port), https) ==
            Some((host, if port.Some? then port.value else if https then 443 else 80))
  {
    hide ShowDec, DecValue, AfterLast;
    var a := SpelledHost(host, port);
    if port.Some? {
      var dec := ShowDec(port.value);
      assert forall i :: |host| + 1 <= i < |a| ==> a[i] == dec[i - |host| - 1];
      AfterLastIs(a, ':', |host| + 1);
      assert a[|host| + 1..] == dec && a[..|host|] == host;
    } else {
      assert a == host;
      AfterLastIs(a, ':', 0);
    }
  }

  lemma HostHasNoDelimiter(host: string, port: Option<nat>)
    requires NoDelimiter(host) && '@' !in host
    ensures NoDelimiter(SpelledHost(host, port)) && '@' !in SpelledHost(host, port)
  {
    hide ShowDec, DecValue;
    var dec := if port.Some? then ":" + ShowDec(port.value) else "";
    assert forall i :: 0 <= i < |dec| ==> dec[i] == ':' || IsDigit(dec[i]);
    assert forall c :: c in dec ==> c == ':' || IsDigit(c);
    assert SpelledHost(host, port) == host + dec;
  }

  lemma AuthorityHasNoDelimiter(userinfo: string, host: string, port: Option<nat>)
    requires NoDelimiter(userinfo) && NoDelimiter(host) && '@' !in host
    ensures NoDelimiter(SpelledAuthority(userinfo, host, port))
    ensures var a, n := SpelledAuthority(userinfo, host, port), if userinfo == [] then 0 else |userinfo| + 1;
            AfterLast(a, '@') == n && a[n..] == SpelledHost(host, port)
  {
    hide AfterLast, SpelledHost;
    var a, h := SpelledAuthority(userinfo, host, port), SpelledHost(host, port);
    var n := if userinfo == [] then 0 else |userinfo| + 1;
    HostHasNoDelimiter(host, port);
    assert a[n..] == h;
    assert forall i :: n <= i < |a| ==> a[i] == h[i - n];
    AfterLastIs(a, '@', n);
  }

  /** Every part of a URL is read as it is written: the userinfo and the fragment are dropped, a
      missing port is 443 or 80, a missing path is a slash. */
  lemma ParsesAsSpelled(https: bool, userinfo: string, host: string, port: Option<nat>, path: string, fragment: string)
    requires Spellable(userinfo, host, port, path, fragment)
    ensures Parse(Spelled(https, userinfo, host, port, path, fragment)) ==
            Some(Url(https, host, if port.Some? then port.value else if https then 443 else 80, if path == [] then "/" else path))
  {
    hide Until, AfterLast, ParseHost, SpelledHost, ParseRest, SpelledAuthority;
    var s := Spelled(https, userinfo, host, port, path, fragment);
    var rest := SpelledAuthority(userinfo, host, port) + (path + fragment);
    RestIsRead(https, userinfo, host, port, path, fragment);
    if https {
      assert s[8..] == rest && HTTPS <= s;
    } else {
      assert s[7..] == rest && HTTP <= s && s[4] == ':' && HTTPS[4] == 's';
    }
  }

  lemma RestIsRead(https: bool, userinfo: string, host: string, port: Option<nat>, path: string, fragment: string)
    requires Spellable(userinfo, host, port, path, fragment)
    ensures ParseRest(SpelledAuthority(userinfo, host, port) + (path + fragment), https) ==
            Some(Url(https, host, if port.Some? then port.value else if https then 443 else 80, if path == [] then "/" else path))
  {
    hide Until, AfterLast, ParseHost, SpelledHost, SpelledAuthority;
    var a, tail := SpelledAuthority(userinfo, host, port), path + fragment;
    var rest := a + tail;
    AuthorityHasNoDelimiter(userinfo, host, port);
    HostIsRead(https, host, port);
    assert forall i :: 0 <= i < |a| ==> rest[i] == a[i];
    UntilIs(rest, {'/', '?', '#'}, |a|);
    assert rest[..|a|] == a && rest[|a|..] == tail;
    if tail == [] {
      UntilIs("/", {'#'}, 1);
      assert "/"[..1] == "/";
    } else {
      UntilIs(tail, {'#'}, |path|);
      assert tail[..|path|] == path;
    }
  }
}
