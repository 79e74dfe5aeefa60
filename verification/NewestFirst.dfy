/** The newest-first sorts of boot entries (src/boot/bls.rs, src/boot/mod.rs): a stable sort under
    the reversed version order. */
module NewestFirst {
  import opened Common
  import opened BootEntries
  import opened Vercmp

  /** An entry with the version it sorts by and the file name it came from. */
  datatype Item = Item(version: string, stem: string, entry: BootEntry)

  predicate Older(a: Item, b: Item) {
    Compare(a.version, b.version) == Less
  }

  predicate SameVersion(a: Item, b: Item) {
    Compare(a.version, b.version) == Equal
  }

  predicate Sorted(items: seq<Item>) {
    forall i, j :: 0 <= i < j < |items| ==> !Older(items[i], items[j])
  }

  function Insert(x: Item, items: seq<Item>): seq<Item> {
    if items == [] || !Older(x, items[0]) then [x] + items else [items[0]] + Insert(x, items[1..])
  }

  /** A stable sort: an item goes before the later items of its version. */
  function Sort(items: seq<Item>): seq<Item> {
    if items == [] then [] else Insert(items[0], Sort(items[1..]))
  }

  /** The items of one version, in order. */
  function Alike(x: Item, items: seq<Item>): seq<Item> {
    if items == [] then [] else (if SameVersion(items[0], x) then [items[0]] else []) + Alike(x, items[1..])
  }

  lemma AlikeCons(k: Item, x: Item, items: seq<Item>)
    ensures Alike(k, [x] + items) == (if SameVersion(x, k) then [x] else []) + Alike(k, items)
  {
    hide SameVersion;
    assert ([x] + items)[1..] == items;
  }

  lemma VersionOrder(a: Item, b: Item, c: Item)
    ensures SameVersion(a, a) && !(Older(a, b) && Older(b, a)) && (SameVersion(a, b) <==> SameVersion(b, a))
    ensures !Older(a, b) && !Older(b, c) ==> !Older(a, c)
    ensures !Older(a, b) && !Older(b, a) <==> SameVersion(a, b)
    ensures SameVersion(a, b) ==> (SameVersion(b, c) <==> SameVersion(a, c))
  {
    hide Compare;
    CompareIsTotalPreorder(a.version, a.version, a.version);
    CompareIsTotalPreorder(a.version, b.version, c.version);
    CompareIsTotalPreorder(b.version, a.version, c.version);
    CompareIsTotalPreorder(c.version, b.version, a.version);
    CompareIsTotalPreorder(c.version, a.version, b.version);
  }

  lemma SortedCons(x: Item, items: seq<Item>)
    requires Sorted(items) && (items == [] || !Older(x, items[0]))
    ensures Sorted([x] + items)
  {
    hide Older;
    var all := [x] + items;
    forall i, j | 0 <= i < j < |all|
      ensures !Older(all[i], all[j])
    {
      if i == 0 {
        VersionOrder(x, items[0], items[j - 1]);
      }
    }
  }

  lemma {:induction false} InsertSorts(x: Item, items: seq<Item>)
    requires Sorted(items)
    ensures Sorted(Insert(x, items)) && multiset(Insert(x, items)) == multiset(items) + multiset{x}
    ensures Insert(x, items)[0] == x || (items != [] && Insert(x, items)[0] == items[0])
  {
    hide Older;
    if items == [] || !Older(x, items[0]) {
      SortedCons(x, items);
    } else {
      InsertSorts(x, items[1..]);
      VersionOrder(x, items[0], x);
      SortedCons(items[0], Insert(x, items[1..]));
      assert items == [items[0]] + items[1..];
    }
  }

  lemma {:induction false} InsertKeepsAlike(k: Item, x: Item, items: seq<Item>)
    ensures Alike(k, Insert(x, items)) == Alike(k, [x] + items)
  {
    hide Older, SameVersion, Alike;
    if items != [] && Older(x, items[0]) {
      var y, rest := items[0], items[1..];
      InsertKeepsAlike(k, x, rest);
      AlikeCons(k, x, items);
      AlikeCons(k, x, rest);
      AlikeCons(k, y, rest);
      AlikeCons(k, y, Insert(x, rest));
      assert items == [y] + rest;
      VersionOrder(x, y, k);
      VersionOrder(x, k, y);
      VersionOrder(y, k, x);
    }
  }

  lemma {:induction false} SortKeepsAlike(k: Item, items: seq<Item>)
    ensures Alike(k, Sort(items)) == Alike(k, items)
  {
    if items != [] {
      InsertKeepsAlike(k, items[0], Sort(items[1..]));
      SortKeepsAlike(k, items[1..]);
      AlikeCons(k, items[0], Sort(items[1..]));
    }
  }

  /** The sort puts newer versions first, loses and adds nothing, and keeps the order of equals. */
  lemma {:induction false} SortIsStable(items: seq<Item>)
    ensures Sorted(Sort(items)) && multiset(Sort(items)) == multiset(items) && |Sort(items)| == |items|
    ensures forall k :: Alike(k, Sort(items)) == Alike(k, items)
  {
    hide Older, Alike, Insert;
    if items != [] {
      SortIsStable(items[1..]);
      InsertSorts(items[0], Sort(items[1..]));
      assert items == [items[0]] + items[1..];
    }
    forall k
      ensures Alike(k, Sort(items)) == Alike(k, items)
    {
      SortKeepsAlike(k, items);
    }
    assert |multiset(Sort(items))| == |Sort(items)| && |multiset(items)| == |items|;
  }

  lemma {:induction false} AlikeMember(x: Item, items: seq<Item>)
    ensures Alike(x, items) != [] ==> exists i :: 0 <= i < |items| && SameVersion(items[i], x)
    ensures items != [] && SameVersion(items[0], x) ==> Alike(x, items) != [] && Alike(x, items)[0] == items[0]
  {
    hide SameVersion;
    if items != [] && !SameVersion(items[0], x) {
      AlikeMember(x, items[1..]);
    }
  }

  /** Two sorted lists with the same items of each version start alike. */
  lemma HeadNotOlder(a: seq<Item>, b: seq<Item>)
    requires a != [] && Sorted(b) && Alike(a[0], b) == Alike(a[0], a)
    ensures b != [] && !Older(b[0], a[0])
  {
    hide Older, SameVersion, Alike;
    var x := a[0];
    VersionOrder(x, x, x);
    AlikeMember(x, a);
    AlikeMember(x, b);
    var i :| 0 <= i < |b| && SameVersion(b[i], x);
    VersionOrder(b[i], x, x);
    VersionOrder(b[0], b[i], x);
  }

  lemma AlikeTail(k: Item, a: seq<Item>, b: seq<Item>)
    requires a != [] && b != [] && a[0] == b[0] && Alike(k, a) == Alike(k, b)
    ensures Alike(k, a[1..]) == Alike(k, b[1..])
  {
    hide SameVersion, Alike;
    AlikeCons(k, a[0], a[1..]);
    AlikeCons(k, b[0], b[1..]);
    assert a == [a[0]] + a[1..] && b == [b[0]] + b[1..];
    if SameVersion(a[0], k) {
      assert Alike(k, a)[1..] == Alike(k, a[1..]) && Alike(k, b)[1..] == Alike(k, b[1..]);
    } else {
      assert Alike(k, a) == Alike(k, a[1..]) && Alike(k, b) == Alike(k, b[1..]);
    }
  }

  /** There is only one newest-first order that keeps the order of equals, so the sort is well defined. */
  lemma {:induction false} StableOrderIsUnique(a: seq<Item>, b: seq<Item>)
    requires Sorted(a) && Sorted(b)
    requires forall k :: Alike(k, a) == Alike(k, b)
    ensures a == b
  {
    hide Older, SameVersion, Alike;
    if a != [] {
      HeadNotOlder(a, b);
      HeadNotOlder(b, a);
      VersionOrder(a[0], b[0], a[0]);
      VersionOrder(b[0], a[0], a[0]);
      VersionOrder(a[0], a[0], a[0]);
      AlikeMember(a[0], a);
      AlikeMember(a[0], b);
      forall k
        ensures Alike(k, a[1..]) == Alike(k, b[1..])
      {
        AlikeTail(k, a, b);
      }
      StableOrderIsUnique(a[1..], b[1..]);
      assert a == [a[0]] + a[1..] && b == [b[0]] + b[1..];
    } else if b != [] {
      HeadNotOlder(b, a);
    }
  }

  function EntriesOf(items: seq<Item>): (r: seq<BootEntry>)
    ensures |r| == |items| && forall i :: 0 <= i < |r| ==> r[i] == items[i].entry
  {
    seq(|items|, i requires 0 <= i < |items| => items[i].entry)
  }
}
