/** The `*` / `?` patterns of loader.conf (`glob_match`, src/boot/bls.rs). */
module Glob {
  function Match(p: string, s: string): bool
    decreases |p| + |s|
  {
    if p == [] then s == []
    else if p[0] == '*' then Match(p[1..], s) || (s != [] && Match(p, s[1..]))
    else if p[0] == '?' then s != [] && Match(p[1..], s[1..])
    else s != [] && s[0] == p[0] && Match(p[1..], s[1..])
  }

  lemma {:induction false} SplitJoins(p: string, q: string, s: string, k: nat)
    requires k <= |s| && Match(p, s[..k]) && Match(q, s[k..])
    ensures Match(p + q, s)
    decreases |p| + |s|
  {
    if p == [] {
      assert k == 0 && p + q == q && s[0..] == s;
    } else {
      assert (p + q)[1..] == p[1..] + q;
      if p[0] == '*' && Match(p[1..], s[..k]) {
        SplitJoins(p[1..], q, s, k);
      } else {
        assert s[..k][1..] == s[1..][..k - 1] && s[1..][k - 1..] == s[k..];
        SplitJoins(if p[0] == '*' then p else p[1..], q, s[1..], k - 1);
      }
    }
  }

  lemma {:induction false} MatchSplits(p: string, q: string, s: string) returns (k: nat)
    requires Match(p + q, s)
    ensures k <= |s| && Match(p, s[..k]) && Match(q, s[k..])
    decreases |p| + |s|
  {
    if p == [] {
      k := 0;
      assert p + q == q && s[0..] == s && s[..0] == [];
    } else {
      assert (p + q)[1..] == p[1..] + q;
      if p[0] == '*' && Match(p[1..] + q, s) {
        k := MatchSplits(p[1..], q, s);
      } else {
        var j := MatchSplits(if p[0] == '*' then p else p[1..], q, s[1..]);
        k := j + 1;
        assert s[..k][1..] == s[1..][..j] && s[1..][j..] == s[k..];
      }
    }
  }

  /** A concatenated pattern matches exactly the strings that split into a match of each part. */
  lemma MatchIsConcatenation(p: string, q: string, s: string)
    ensures Match(p + q, s) <==> exists k :: 0 <= k <= |s| && Match(p, s[..k]) && Match(q, s[k..])
  {
    if Match(p + q, s) {
      var k := MatchSplits(p, q, s);
    }
    if k :| 0 <= k <= |s| && Match(p, s[..k]) && Match(q, s[k..]) {
      SplitJoins(p, q, s, k);
    }
  }

  predicate Wild(c: char) {
    c == '*' || c == '?'
  }

  /** The one-byte patterns: `*` matches everything, `?` any one byte, others themselves. */
  lemma OneCharacterPatterns(c: char, s: string)
    ensures Match([c], s) <==> (c == '*' || (|s| == 1 && (c == '?' || s[0] == c)))
    decreases |s|
  {
    assert [c][1..] == [];
    if c == '*' && s != [] {
      OneCharacterPatterns(c, s[1..]);
    }
  }

  /** A pattern without wildcards matches only itself. */
  lemma {:induction false} PlainMatchesOnlyItself(p: string, s: string)
    requires forall c :: c in p ==> !Wild(c)
    ensures Match(p, s) <==> p == s
  {
    if p != [] {
      assert p[0] in p && forall c :: c in p[1..] ==> c in p;
    }
    if p != [] && s != [] {
      PlainMatchesOnlyItself(p[1..], s[1..]);
      if p[0] == s[0] && p[1..] == s[1..] {
        assert p == [p[0]] + p[1..] && s == [s[0]] + s[1..];
      }
    }
  }
}
