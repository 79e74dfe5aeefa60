/** `retain` (src/boot/mod.rs): the one place where boot entries are renumbered. */
module Sweep {
  import opened Common
  import opened BootEntries

  function Kept<T>(xs: seq<T>, keep: seq<bool>): seq<T>
    requires |keep| == |xs|
  {
    if xs == [] then [] else (if keep[0] then [xs[0]] else []) + Kept(xs[1..], keep[1..])
  }

  function Marked(keep: seq<bool>): nat {
    if keep == [] then 0 else (if keep[0] then 1 else 0) + Marked(keep[1..])
  }

  /** `retain`: an index that points past the entries has no meaning to it. */
  function Retain(s: Scan, keep: seq<bool>): Scan
    requires |keep| == |s.entries|
    requires s.default.Some? ==> s.default.value < |s.entries|
  {
    var moved := if s.default.Some? && keep[s.default.value] then Some(Marked(keep[..s.default.value])) else None;
    var kept := Kept(s.entries, keep);
    Scan(kept, if kept == [] then None else Or(moved, Some(0)))
  }

  /** A marked entry lands after as many entries as are marked before it. */
  lemma {:induction false} KeptAt<T>(xs: seq<T>, keep: seq<bool>, i: nat)
    requires |keep| == |xs| && i < |xs| && keep[i]
    ensures Marked(keep[..i]) < |Kept(xs, keep)|
    ensures Kept(xs, keep)[Marked(keep[..i])] == xs[i]
  {
    if i > 0 {
      KeptAt(xs[1..], keep[1..], i - 1);
      assert keep[..i][1..] == keep[1..][..i - 1];
    }
  }

  /** Every kept entry was marked. */
  lemma {:induction false} KeptFrom<T>(xs: seq<T>, keep: seq<bool>, j: nat) returns (i: nat)
    requires |keep| == |xs| && j < |Kept(xs, keep)|
    ensures i < |xs| && keep[i] && Marked(keep[..i]) == j
  {
    if keep[0] && j == 0 {
      i := 0;
    } else {
      var i' := KeptFrom(xs[1..], keep[1..], if keep[0] then j - 1 else j);
      i := i' + 1;
      assert keep[..i][1..] == keep[1..][..i'];
    }
  }

  lemma {:induction false} MarkedGrows(keep: seq<bool>, i: nat, j: nat)
    requires i < j <= |keep| && keep[i]
    ensures Marked(keep[..i]) < Marked(keep[..j])
  {
    assert keep[..j][1..] == keep[1..][..j - 1];
    if i > 0 {
      assert keep[..i][1..] == keep[1..][..i - 1];
      MarkedGrows(keep[1..], i - 1, j - 1);
    }
  }

  /** `x` is a marked entry with `k` marked entries before it. */
  ghost predicate Lands<T(!new)>(xs: seq<T>, keep: seq<bool>, x: T, k: nat)
    requires |keep| == |xs|
  {
    exists i: nat :: i < |xs| && keep[i] && xs[i] == x && Marked(keep[..i]) == k
  }

  /** A sweep keeps exactly the marked entries, in their order. */
  lemma RetainKeepsOrder(s: Scan, keep: seq<bool>)
    requires |keep| == |s.entries| && DefaultOk(s)
    ensures var r := Retain(s, keep).entries;
            && (forall i :: 0 <= i < |keep| && keep[i] ==>
                  Marked(keep[..i]) < |r| && r[Marked(keep[..i])] == s.entries[i])
            && (forall i, j :: 0 <= i < j < |keep| && keep[i] && keep[j] ==> Marked(keep[..i]) < Marked(keep[..j]))
            && (forall k :: 0 <= k < |r| ==> Lands(s.entries, keep, r[k], k))
  {
    hide Kept, Marked;
    var r := Retain(s, keep).entries;
    forall i | 0 <= i < |keep| && keep[i]
      ensures Marked(keep[..i]) < |r| && r[Marked(keep[..i])] == s.entries[i]
    {
      KeptAt(s.entries, keep, i);
    }
    forall i, j | 0 <= i < j < |keep| && keep[i] && keep[j]
      ensures Marked(keep[..i]) < Marked(keep[..j])
    {
      MarkedGrows(keep, i, j);
    }
    forall k | 0 <= k < |r|
      ensures Lands(s.entries, keep, r[k], k)
    {
      var i := KeptFrom(s.entries, keep, k);
      KeptAt(s.entries, keep, i);
    }
  }

  lemma {:induction false} NothingMarked(keep: seq<bool>, i: nat)
    requires i <= |keep| && forall j :: 0 <= j < i ==> !keep[j]
    ensures Marked(keep[..i]) == 0
  {
    if i > 0 {
      assert keep[..i][1..] == keep[1..][..i - 1];
      NothingMarked(keep[1..], i - 1);
    }
  }

  /** The default follows its entry; when that is gone it is the first survivor, and without
      survivors there is none. */
  lemma RetainCarriesDefault(s: Scan, keep: seq<bool>)
    requires |keep| == |s.entries| && DefaultOk(s)
    ensures var r := Retain(s, keep);
            && DefaultOk(r)
            && (r.entries == [] <==> forall i :: 0 <= i < |keep| ==> !keep[i])
            && (s.default.Some? && keep[s.default.value] ==> r.entries[r.default.value] == s.entries[s.default.value])
            && (forall i | 0 <= i < |keep| && keep[i] && (forall j :: 0 <= j < i ==> !keep[j]) ::
                  keep[s.default.value] || (r.default == Some(0) && r.entries[0] == s.entries[i]))
  {
    hide Kept, Marked;
    var r := Retain(s, keep);
    if s.default.Some? && keep[s.default.value] {
      KeptAt(s.entries, keep, s.default.value);
    }
    forall i | 0 <= i < |keep| && keep[i]
      ensures r.entries != []
      ensures (forall j :: 0 <= j < i ==> !keep[j]) ==>
                keep[s.default.value] || (r.default == Some(0) && r.entries[0] == s.entries[i])
    {
      KeptAt(s.entries, keep, i);
      if forall j :: 0 <= j < i ==> !keep[j] {
        NothingMarked(keep, i);
      }
    }
    if r.entries != [] {
      var i := KeptFrom(s.entries, keep, 0);
    }
  }

  // ---- Two sweeps ----

  /** The one mask that does what `first`, then `second` over the survivors, does. */
  function Both(first: seq<bool>, second: seq<bool>): (both: seq<bool>)
    requires |second| == Marked(first)
    ensures |both| == |first|
  {
    if first == [] then []
    else if first[0] then [second[0]] + Both(first[1..], second[1..])
    else [false] + Both(first[1..], second)
  }

  lemma {:induction false} BothAt(first: seq<bool>, second: seq<bool>, i: nat)
    requires |second| == Marked(first) && i < |first|
    ensures first[i] ==> Marked(first[..i]) < |second|
    ensures Both(first, second)[i] <==> first[i] && second[Marked(first[..i])]
  {
    if i > 0 {
      BothAt(first[1..], if first[0] then second[1..] else second, i - 1);
      assert first[..i][1..] == first[1..][..i - 1];
    }
  }

  lemma {:induction false} KeptLength<T>(xs: seq<T>, keep: seq<bool>)
    requires |keep| == |xs|
    ensures |Kept(xs, keep)| == Marked(keep)
  {
    if xs != [] {
      KeptLength(xs[1..], keep[1..]);
    }
  }

  lemma {:induction false} KeptTwice<T>(xs: seq<T>, first: seq<bool>, second: seq<bool>)
    requires |first| == |xs| && |second| == Marked(first)
    ensures |Kept(xs, first)| == Marked(first)
    ensures Kept(Kept(xs, first), second) == Kept(xs, Both(first, second))
  {
    if xs != [] {
      KeptTwice(xs[1..], first[1..], if first[0] then second[1..] else second);
      var rest := Kept(xs[1..], first[1..]);
      if first[0] {
        assert Kept(xs, first)[1..] == rest;
        assert Both(first, second)[1..] == Both(first[1..], second[1..]);
      } else {
        assert Kept(xs, first) == rest;
        assert Both(first, second)[1..] == Both(first[1..], second);
      }
    }
  }

  lemma MarkedHead(keep: seq<bool>, i: nat)
    requires 0 < i <= |keep|
    ensures Marked(keep[..i]) == (if keep[0] then 1 else 0) + Marked(keep[1..][..i - 1])
  {
    assert keep[..i][1..] == keep[1..][..i - 1];
  }

  lemma BothHead(first: seq<bool>, second: seq<bool>)
    requires |second| == Marked(first) && first != []
    ensures var tail := if first[0] then second[1..] else second;
            && |tail| == Marked(first[1..])
            && Both(first, second) == [first[0] && second[0]] + Both(first[1..], tail)
  {
  }

  /** Counting in two sweeps is counting in one. */
  lemma {:induction false} MarkedTwice(first: seq<bool>, second: seq<bool>, i: nat)
    requires |second| == Marked(first) && i <= |first|
    ensures Marked(first[..i]) <= |second|
    ensures Marked(second[..Marked(first[..i])]) == Marked(Both(first, second)[..i])
  {
    if i == 0 {
      ZeroMarked(first);
      ZeroMarked(second);
      ZeroMarked(Both(first, second));
    } else {
      hide Marked, Both;
      var tail, both := if first[0] then second[1..] else second, Both(first, second);
      BothHead(first, second);
      MarkedTwice(first[1..], tail, i - 1);
      MarkedHead(first, i);
      MarkedHead(both, i);
      assert both[1..] == Both(first[1..], tail);
      if first[0] {
        MarkedHead(second, Marked(first[..i]));
      }
    }
  }

  /** Two sweeps in sequence are one sweep with the conjunction of the masks, default included. */
  lemma TwoSweepsAreOne(s: Scan, first: seq<bool>, second: seq<bool>)
    requires |first| == |s.entries| && DefaultOk(s) && |second| == Marked(first)
    ensures |Retain(s, first).entries| == |second| && DefaultOk(Retain(s, first))
    ensures Retain(Retain(s, first), second) == Retain(s, Both(first, second))
  {
    hide Kept, Marked, Both;
    KeptTwice(s.entries, first, second);
    RetainCarriesDefault(s, first);
    var once := Retain(s, first);
    if once.entries != [] {
      var d := s.default.value;
      BothAt(first, second, d);
      if first[d] {
        MarkedTwice(first, second, d);
      } else {
        ZeroMarked(second);
      }
    }
    if once.entries == [] {
      KeptNone(once.entries, second);
    }
  }

  lemma KeptNone<T>(xs: seq<T>, keep: seq<bool>)
    requires |xs| == |keep| == 0
    ensures Kept(xs, keep) == []
  {
  }

  lemma ZeroMarked(second: seq<bool>)
    ensures Marked(second[..0]) == 0
  {
  }

  /** Entries that satisfy a predicate, as a mask. */
  function Mask<T>(xs: seq<T>, p: T -> bool): (keep: seq<bool>)
    ensures |keep| == |xs| && forall i :: 0 <= i < |keep| ==> keep[i] == p(xs[i])
  {
    seq(|xs|, i requires 0 <= i < |xs| => p(xs[i]))
  }
}
