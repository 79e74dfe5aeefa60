/** The bounded cache of inflated clusters in `Qcow2`, shared by concurrent readers
    (`decompress_cluster`, src/disk/qcow2.rs). Lookup and insertion hold the lock one at a time;
    inflating happens between them without it. */
module ClusterCache {
  import opened Common

  datatype Entry = Entry(key: nat, data: seq<byte>)

  type Cache = seq<Entry>

  /** `csize` bytes of compressed data at host offset `key`. */
  datatype Request = Request(key: nat, csize: nat)

  /** What reading and inflating a request yields, None when it fails. */
  type Inflater = Request -> Option<seq<byte>>

  /** The first entry with that key. */
  function Find(cache: Cache, key: nat): (r: Option<seq<byte>>)
    ensures r.Some? ==> Entry(key, r.value) in cache
    ensures r.None? ==> forall e :: e in cache ==> e.key != key
  {
    if cache == [] then None
    else if cache[0].key == key then Some(cache[0].data)
    else Find(cache[1..], key)
  }

  /** `push_back`, dropping the oldest entry of a full cache. */
  function Insert(cache: Cache, cap: nat, e: Entry): Cache {
    (if |cache| >= cap && cache != [] then cache[1..] else cache) + [e]
  }

  // ---- Interleaved readers ----

  type Reader = nat

  /** Where a reader stands inside `decompress_cluster`. */
  datatype Progress =
    | Missed(req: Request)
    | Inflating(req: Request, data: seq<byte>)
    | Returned(req: Request, result: Option<seq<byte>>)

  datatype State = State(cache: Cache, readers: map<Reader, Progress>)

  datatype Action =
    | Lookup(who: Reader, req: Request)
    | Inflate(who: Reader)
    | Store(who: Reader)

  /** A reader may start a lookup when it has none under way. */
  predicate Enabled(s: State, a: Action) {
    match a
    case Lookup(who, _) => who in s.readers ==> s.readers[who].Returned?
    case Inflate(who) => who in s.readers && s.readers[who].Missed?
    case Store(who) => who in s.readers && s.readers[who].Inflating?
  }

  function Apply(inflate: Inflater, cap: nat, s: State, a: Action): State
    requires Enabled(s, a)
  {
    match a
    case Lookup(who, req) =>
      var hit := Find(s.cache, req.key);
      s.(readers := s.readers[who := if hit.Some? then Returned(req, hit) else Missed(req)])
    case Inflate(who) =>
      var req := s.readers[who].req;
      var out := inflate(req);
      s.(readers := s.readers[who := if out.Some? then Inflating(req, out.value) else Returned(req, None)])
    case Store(who) =>
      var p := s.readers[who];
      State(Insert(s.cache, cap, Entry(p.req.key, p.data)), s.readers[who := Returned(p.req, Some(p.data))])
  }

  /** `states` is a run from the empty cache that performs `actions`, asking only for requests in `asked`. */
  ghost predicate Run(inflate: Inflater, cap: nat, asked: set<Request>, states: seq<State>, actions: seq<Action>) {
    && |states| == |actions| + 1
    && states[0] == State([], map[])
    && forall i :: 0 <= i < |actions| ==>
         && (actions[i].Lookup? ==> actions[i].req in asked)
         && Enabled(states[i], actions[i])
         && states[i + 1] == Apply(inflate, cap, states[i], actions[i])
  }

  ghost predicate Reachable(inflate: Inflater, cap: nat, asked: set<Request>, s: State) {
    exists states: seq<State>, actions: seq<Action> ::
      Run(inflate, cap, asked, states, actions) && states[|states| - 1] == s
  }

  /** What every state of every run keeps: the bound, and that cached or carried data is the
      inflation of some request made for that key. */
  ghost predicate Inv(inflate: Inflater, cap: nat, asked: set<Request>, s: State) {
    && |s.cache| <= cap
    && (forall e :: e in s.cache ==> exists r :: r in asked && r.key == e.key && inflate(r) == Some(e.data))
    && (forall w :: w in s.readers ==> s.readers[w].req in asked && Explained(inflate, asked, s.readers[w]))
  }

  ghost predicate Explained(inflate: Inflater, asked: set<Request>, p: Progress) {
    match p
    case Missed(_) => true
    case Inflating(req, data) => inflate(req) == Some(data)
    case Returned(req, result) =>
      || inflate(req) == result
      || (result.Some? && exists r :: r in asked && r.key == req.key && inflate(r) == result)
  }

  lemma StepKeepsInv(inflate: Inflater, cap: nat, asked: set<Request>, s: State, a: Action)
    requires cap > 0 && Inv(inflate, cap, asked, s) && Enabled(s, a)
    requires a.Lookup? ==> a.req in asked
    ensures Inv(inflate, cap, asked, Apply(inflate, cap, s, a))
  {
    var s' := Apply(inflate, cap, s, a);
    match a
    case Lookup(who, req) =>
      var hit := Find(s.cache, req.key);
      if hit.Some? {
        assert Entry(req.key, hit.value) in s.cache;
      }
    case Inflate(who) =>
    case Store(who) =>
      var p := s.readers[who];
      assert forall e :: e in s'.cache ==> e in s.cache || e == Entry(p.req.key, p.data);
      assert p.req in asked;
  }

  lemma {:induction false} RunKeepsInv(
    inflate: Inflater, cap: nat, asked: set<Request>, states: seq<State>, actions: seq<Action>, i: nat)
    requires cap > 0 && Run(inflate, cap, asked, states, actions) && i < |states|
    ensures Inv(inflate, cap, asked, states[i])
  {
    if i > 0 {
      RunKeepsInv(inflate, cap, asked, states, actions, i - 1);
      StepKeepsInv(inflate, cap, asked, states[i - 1], actions[i - 1]);
    }
  }

  /** Whatever a reader gets back is what it would have inflated without a cache. */
  ghost predicate Transparent(inflate: Inflater, s: State) {
    forall w :: w in s.readers && s.readers[w].Returned? ==> s.readers[w].result == inflate(s.readers[w].req)
  }

  /** Requests for one key inflate alike. */
  ghost predicate Coherent(inflate: Inflater, asked: set<Request>) {
    forall r, q :: r in asked && q in asked && r.key == q.key ==> inflate(r) == inflate(q)
  }

  lemma ReachableInv(inflate: Inflater, cap: nat, asked: set<Request>, s: State)
    requires cap > 0 && Reachable(inflate, cap, asked, s)
    ensures Inv(inflate, cap, asked, s)
  {
    var states: seq<State>, actions: seq<Action> :|
      Run(inflate, cap, asked, states, actions) && states[|states| - 1] == s;
    RunKeepsInv(inflate, cap, asked, states, actions, |states| - 1);
  }

  /** The cache stays bounded under every interleaving. */
  lemma CacheIsBounded(inflate: Inflater, cap: nat, asked: set<Request>, s: State)
    requires cap > 0 && Reachable(inflate, cap, asked, s)
    ensures |s.cache| <= cap
  {
    ReachableInv(inflate, cap, asked, s);
  }

  /** Under every interleaving the cache is invisible to readers exactly when no two requests
      for one host offset inflate differently. */
  lemma TransparentIffCoherent(inflate: Inflater, cap: nat, asked: set<Request>)
    requires cap > 0
    ensures Coherent(inflate, asked) <==>
            forall s :: Reachable(inflate, cap, asked, s) ==> Transparent(inflate, s)
  {
    forall s | Coherent(inflate, asked) && Reachable(inflate, cap, asked, s)
      ensures Transparent(inflate, s)
    {
      ReachableInv(inflate, cap, asked, s);
    }
    if r, q :| r in asked && q in asked && r.key == q.key && inflate(r) != inflate(q) {
      var first, second := if inflate(r).Some? then r else q, if inflate(r).Some? then q else r;
      var s := IncoherentRun(inflate, cap, asked, first, second);
    }
  }

  /** One reader in, then another request for the same key: it is handed the first one's data. */
  lemma IncoherentRun(inflate: Inflater, cap: nat, asked: set<Request>, r: Request, q: Request)
    returns (s: State)
    requires cap > 0 && r in asked && q in asked && r.key == q.key
    requires inflate(r).Some? && inflate(r) != inflate(q)
    ensures Reachable(inflate, cap, asked, s) && !Transparent(inflate, s)
  {
    var actions := [Lookup(0, r), Inflate(0), Store(0), Lookup(0, q)];
    var s0 := State([], map[]);
    var s1 := Apply(inflate, cap, s0, actions[0]);
    var s2 := Apply(inflate, cap, s1, actions[1]);
    var s3 := Apply(inflate, cap, s2, actions[2]);
    assert s3.cache == [Entry(r.key, inflate(r).value)];
    var s4 := Apply(inflate, cap, s3, actions[3]);
    var states := [s0, s1, s2, s3, s4];
    assert Run(inflate, cap, asked, states, actions);
    s := s4;
    assert s4.readers[0] == Returned(q, inflate(r));
  }

  // ---- One reader at a time ----

  ghost predicate DistinctKeys(cache: Cache) {
    forall i, j :: 0 <= i < j < |cache| ==> cache[i].key != cache[j].key
  }

  /** A whole `decompress_cluster` call without interference. */
  function Decompress(inflate: Inflater, cap: nat, cache: Cache, req: Request): (Option<seq<byte>>, Cache) {
    var hit := Find(cache, req.key);
    if hit.Some? then (hit, cache)
    else
      var out := inflate(req);
      if out.None? then (None, cache)
      else (out, Insert(cache, cap, Entry(req.key, out.value)))
  }

  function DecompressAll(inflate: Inflater, cap: nat, cache: Cache, reqs: seq<Request>): Cache
    decreases |reqs|
  {
    if reqs == [] then cache
    else DecompressAll(inflate, cap, Decompress(inflate, cap, cache, reqs[0]).1, reqs[1..])
  }

  /** Calls that do not overlap never cache a key twice. */
  lemma {:induction false} SequentialKeysStayDistinct(inflate: Inflater, cap: nat, cache: Cache, reqs: seq<Request>)
    requires DistinctKeys(cache)
    ensures DistinctKeys(DecompressAll(inflate, cap, cache, reqs))
    decreases |reqs|
  {
    if reqs != [] {
      var after := Decompress(inflate, cap, cache, reqs[0]).1;
      assert DistinctKeys(after) by {
        if Find(cache, reqs[0].key).None? {
          assert forall i :: 0 <= i < |cache| ==> cache[i] in cache;
        }
      }
      SequentialKeysStayDistinct(inflate, cap, after, reqs[1..]);
    }
  }

  /** Overlapping calls can: two readers that both miss both insert. */
  lemma ConcurrentKeysCanRepeat(inflate: Inflater, r: Request)
    requires inflate(r).Some?
    ensures exists s :: Reachable(inflate, 2, {r}, s) && !DistinctKeys(s.cache)
  {
    var actions := [Lookup(0, r), Lookup(1, r), Inflate(0), Inflate(1), Store(0), Store(1)];
    var s0 := State([], map[]);
    var s1 := Apply(inflate, 2, s0, actions[0]);
    var s2 := Apply(inflate, 2, s1, actions[1]);
    var s3 := Apply(inflate, 2, s2, actions[2]);
    var s4 := Apply(inflate, 2, s3, actions[3]);
    var s5 := Apply(inflate, 2, s4, actions[4]);
    var s6 := Apply(inflate, 2, s5, actions[5]);
    var e := Entry(r.key, inflate(r).value);
    assert s6.cache == [e, e];
    var states := [s0, s1, s2, s3, s4, s5, s6];
    assert Run(inflate, 2, {r}, states, actions);
    assert states[|states| - 1] == s6 && s6.cache[0].key == s6.cache[1].key;
  }

  /** Storing an entry keeps keys distinct exactly when no entry that survives the eviction has its key. */
  lemma StoreKeepsDistinctIff(cache: Cache, cap: nat, e: Entry)
    requires DistinctKeys(cache)
    ensures DistinctKeys(Insert(cache, cap, e)) <==>
            forall i :: 0 <= i < |cache| && cache[i].key == e.key ==> i == 0 && |cache| >= cap
  {
    var kept := if |cache| >= cap && cache != [] then cache[1..] else cache;
    var after := Insert(cache, cap, e);
    assert after == kept + [e];
    var dropped := |cache| - |kept|;
    assert forall i :: dropped <= i < |cache| ==> after[i - dropped] == cache[i];
    if DistinctKeys(after) {
      assert forall j :: 0 <= j < |kept| ==> after[j].key != after[|kept|].key;
      assert forall i :: dropped <= i < |cache| ==> cache[i].key != e.key;
    }
  }

  // ---- The policy the name promises ----

  /** Where the first entry with that key is. */
  function Place(cache: Cache, key: nat): (i: nat)
    requires Find(cache, key).Some?
    ensures i < |cache| && cache[i].key == key && cache[i].data == Find(cache, key).value
  {
    if cache[0].key == key then 0 else 1 + Place(cache[1..], key)
  }

  /** A least-recently-used cache moves an entry that is hit to the back. */
  function Touch(cache: Cache, key: nat): Cache
    requires Find(cache, key).Some?
  {
    var i := Place(cache, key);
    cache[..i] + cache[i + 1..] + [cache[i]]
  }

  function DecompressLru(inflate: Inflater, cap: nat, cache: Cache, req: Request): (Option<seq<byte>>, Cache) {
    var hit := Find(cache, req.key);
    if hit.Some? then (hit, Touch(cache, req.key)) else Decompress(inflate, cap, cache, req)
  }

  /** The hit, if there is one, is on the newest entry. */
  predicate HitIsNewest(cache: Cache, key: nat) {
    Find(cache, key).Some? ==> cache[|cache| - 1].key == key
  }

  /** A hit leaves a least-recently-used cache as it is exactly when it is on the newest entry. */
  lemma TouchIsIdleIff(cache: Cache, key: nat)
    requires DistinctKeys(cache) && Find(cache, key).Some?
    ensures Touch(cache, key) == cache <==> HitIsNewest(cache, key)
  {
    var i, last := Place(cache, key), |cache| - 1;
    assert Touch(cache, key)[last] == cache[i];
    if i == last {
      assert Touch(cache, key) == cache;
    } else {
      assert cache[i].key != cache[last].key;
    }
  }

  /** Both policies hold the same cache before and after each request. */
  ghost predicate PoliciesAgree(inflate: Inflater, cap: nat, fifo: Cache, lru: Cache, reqs: seq<Request>)
    decreases |reqs|
  {
    fifo == lru &&
    (reqs == [] ||
     PoliciesAgree(inflate, cap, Decompress(inflate, cap, fifo, reqs[0]).1, DecompressLru(inflate, cap, lru, reqs[0]).1, reqs[1..]))
  }

  ghost predicate HitsAreNewest(inflate: Inflater, cap: nat, cache: Cache, reqs: seq<Request>)
    decreases |reqs|
  {
    reqs == [] ||
    (HitIsNewest(cache, reqs[0].key) && HitsAreNewest(inflate, cap, Decompress(inflate, cap, cache, reqs[0]).1, reqs[1..]))
  }

  /** Over any run of requests the cache behaves like a least-recently-used one exactly when every
      hit is on the entry stored last. */
  lemma {:induction false} IsLruIffHitsAreNewest(inflate: Inflater, cap: nat, cache: Cache, reqs: seq<Request>)
    requires DistinctKeys(cache)
    ensures PoliciesAgree(inflate, cap, cache, cache, reqs) <==> HitsAreNewest(inflate, cap, cache, reqs)
    decreases |reqs|
  {
    hide DistinctKeys, Touch, Insert, HitIsNewest;
    if reqs != [] {
      var req := reqs[0];
      var after := Decompress(inflate, cap, cache, req).1;
      SequentialKeysStayDistinct(inflate, cap, cache, [req]);
      assert [req][1..] == [];
      assert DecompressAll(inflate, cap, cache, [req]) == DecompressAll(inflate, cap, after, []) == after;
      IsLruIffHitsAreNewest(inflate, cap, after, reqs[1..]);
      if Find(cache, req.key).Some? {
        TouchIsIdleIff(cache, req.key);
      } else {
        MissIsNoHit(cache, req.key);
      }
    }
  }

  lemma MissIsNoHit(cache: Cache, key: nat)
    requires Find(cache, key).None?
    ensures HitIsNewest(cache, key)
  {
  }

  /** Eviction is by age of insertion, not of use: with room for two, a key hit a moment ago is
      the one dropped. */
  lemma HitsDoNotRefresh(inflate: Inflater, a: Request, b: Request, c: Request)
    requires a.key != b.key && b.key != c.key && a.key != c.key
    requires inflate(a).Some? && inflate(b).Some? && inflate(c).Some?
    ensures var cache := DecompressAll(inflate, 2, [], [a, b, a, c]);
            Find(cache, a.key) == None && Find(cache, b.key) == inflate(b)
  {
    var ea, eb, ec := Entry(a.key, inflate(a).value), Entry(b.key, inflate(b).value), Entry(c.key, inflate(c).value);
    var reqs := [a, b, a, c];
    assert reqs[1..] == [b, a, c] && [b, a, c][1..] == [a, c] && [a, c][1..] == [c] && [c][1..] == [];
    assert Decompress(inflate, 2, [], a).1 == [ea];
    assert Find([ea], b.key) == None;
    assert Decompress(inflate, 2, [ea], b).1 == [ea, eb];
    assert Find([ea, eb], a.key) == inflate(a);
    assert [ea, eb][1..] == [eb] && [eb][1..] == [];
    assert Find([eb], c.key) == None && Find([ea, eb], c.key) == None;
    assert Decompress(inflate, 2, [ea, eb], c).1 == [eb, ec];
    assert Find([eb, ec][1..], a.key) == None;
    calc {
      DecompressAll(inflate, 2, [], reqs);
      DecompressAll(inflate, 2, [ea], [b, a, c]);
      DecompressAll(inflate, 2, [ea, eb], [a, c]);
      DecompressAll(inflate, 2, [ea, eb], [c]);
      DecompressAll(inflate, 2, [eb, ec], []);
      [eb, ec];
    }
  }
}
