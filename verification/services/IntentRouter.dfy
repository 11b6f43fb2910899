/** Routing an intent to a tool pool through a keyword index, with a plain scan as
    the second phase. */
module IntentRouter {
  import opened Domain
  import opened Tokens

  datatype ToolPool = ToolPool(id: string, keywords: seq<string>, priority: int)

  type Pools = map<string, ToolPool>
  type Index = map<string, seq<string>>
  type CharMap = char -> char

  /** Lower-casing works character by character; the mapping is a parameter. */
  function Lower(lower: CharMap, s: string): string {
    if s == "" then "" else Lower(lower, s[..|s| - 1]) + [lower(s[|s| - 1])]
  }

  function Keywords(lower: CharMap, kws: seq<string>): seq<string> {
    if kws == [] then [] else Keywords(lower, kws[..|kws| - 1]) + [Lower(lower, kws[|kws| - 1])]
  }

  function Ids(index: Index, k: string): seq<string> {
    if k in index then index[k] else []
  }

  // ---- The two updates of the index ----

  ghost function IndexAdd(index: Index, id: string, ks: seq<string>): Index {
    if ks == [] then index
    else
      var rest := IndexAdd(index, id, ks[..|ks| - 1]);
      rest[ks[|ks| - 1] := Ids(rest, ks[|ks| - 1]) + [id]]
  }

  function Without(ids: seq<string>, id: string): seq<string> {
    if ids == [] then []
    else Without(ids[..|ids| - 1], id) + if ids[|ids| - 1] != id then [ids[|ids| - 1]] else []
  }

  function DropId(index: Index, id: string, k: string): Index {
    var filtered := Without(Ids(index, k), id);
    if filtered == [] then index - {k} else index[k := filtered]
  }

  ghost function IndexRemove(index: Index, id: string, ks: seq<string>): Index {
    if ks == [] then index
    else DropId(IndexRemove(index, id, ks[..|ks| - 1]), id, ks[|ks| - 1])
  }

  // ---- What the index should hold ----

  ghost predicate HasKeyword(lower: CharMap, pools: Pools, id: string, k: string) {
    id in pools && k in Keywords(lower, pools[id].keywords)
  }

  /** The index lists a pool under a keyword exactly when the pool has it. */
  ghost predicate Matches(lower: CharMap, pools: Pools, index: Index) {
    forall k, id :: id in Ids(index, k) <==> HasKeyword(lower, pools, id, k)
  }

  method FilterOut(ids: seq<string>, id: string) returns (filtered: seq<string>)
    ensures filtered == Without(ids, id)
  {
    filtered := [];
    for j := 0 to |ids|
      invariant filtered == Without(ids[..j], id)
    {
      assert ids[..j + 1][..j] == ids[..j];
      if ids[j] != id {
        filtered := filtered + [ids[j]];
      }
    }
    assert ids[..|ids|] == ids;
  }

  ghost predicate NoEmptyLists(index: Index) {
    forall k :: k in index ==> index[k] != []
  }

  ghost predicate Keyed(pools: Pools) {
    forall id :: id in pools ==> pools[id].id == id
  }

  class IntentRouter {
    const lower: CharMap
    var pools: Pools
    var keywordIndex: Index

    constructor (lower: CharMap)
      ensures this.lower == lower && pools == map[] && keywordIndex == map[]
    {
      this.lower := lower;
      pools, keywordIndex := map[], map[];
    }

    method AddPool(pool: ToolPool)
      modifies this
      ensures pools == old(pools)[pool.id := pool]
      ensures keywordIndex == IndexAdd(old(keywordIndex), pool.id, Keywords(lower, pool.keywords))
    {
      hide Lower, IndexAdd, Keywords;
      AddStart(keywordIndex, pool.id, lower, pool.keywords);
      pools := pools[pool.id := pool];
      var kws := pool.keywords;
      for i := 0 to |kws|
        invariant pools == old(pools)[pool.id := pool]
        invariant keywordIndex == IndexAdd(old(keywordIndex), pool.id, Keywords(lower, kws[..i]))
      {
        KeywordsNext(lower, kws, i);
        var k := Lower(lower, kws[i]);
        AddSnoc(old(keywordIndex), pool.id, Keywords(lower, kws[..i]), k);
        keywordIndex := keywordIndex[k := Ids(keywordIndex, k) + [pool.id]];
      }
      assert kws[..|kws|] == kws;
    }

    method RemovePool(id: string)
      modifies this
      ensures id !in old(pools) ==> pools == old(pools) && keywordIndex == old(keywordIndex)
      ensures id in old(pools) ==>
                pools == old(pools) - {id}
                && keywordIndex == IndexRemove(old(keywordIndex), id, Keywords(lower, old(pools)[id].keywords))
    {
      hide IndexRemove, Keywords, Without, Lower;
      if id !in pools {
        return;
      }
      var kws := pools[id].keywords;
      RemoveStart(keywordIndex, id, lower, kws);
      for i := 0 to |kws|
        invariant pools == old(pools)
        invariant keywordIndex == IndexRemove(old(keywordIndex), id, Keywords(lower, kws[..i]))
      {
        KeywordsNext(lower, kws, i);
        var k := Lower(lower, kws[i]);
        RemoveSnoc(old(keywordIndex), id, Keywords(lower, kws[..i]), k);
        var poolIds := Ids(keywordIndex, k);
        var filtered := FilterOut(poolIds, id);
        if |filtered| == 0 {
          keywordIndex := keywordIndex - {k};
        } else {
          keywordIndex := keywordIndex[k := filtered];
        }
      }
      assert kws[..|kws|] == kws;
      pools := pools - {id};
    }

    /** The indexed phase: every token that is a keyword brings in its pools. */
    method IndexPhase(text: string, words: seq<string>) returns (seen: set<string>, candidates: seq<ToolPool>)
      requires Keyed(pools)
      ensures SeenHits(lower, pools, keywordIndex, text, words, seen, candidates)
      ensures forall id :: Indexed(pools, keywordIndex, words, id) ==> id in seen
      ensures words == [] ==> candidates == []
    {
      hide Contains, Keywords, SeenHits;
      seen, candidates := {}, [];
      NothingSeen(lower, pools, keywordIndex, text, words);
      for i := 0 to |words|
        invariant SeenHits(lower, pools, keywordIndex, text, words, seen, candidates)
        invariant forall k, id :: 0 <= k < i && id in Ids(keywordIndex, words[k]) ==> id in seen
        invariant i == 0 ==> candidates == []
      {
        var ids := Ids(keywordIndex, words[i]);
        for j := 0 to |ids|
          invariant SeenHits(lower, pools, keywordIndex, text, words, seen, candidates)
          invariant forall k, id :: 0 <= k < i && id in Ids(keywordIndex, words[k]) ==> id in seen
          invariant forall x :: 0 <= x < j ==> ids[x] in seen
        {
          if ids[j] in seen {
            continue;
          }
          if ids[j] in pools {
            assert Indexed(pools, keywordIndex, words, ids[j]);
            SeeOne(lower, pools, keywordIndex, text, words, seen, candidates, ids[j]);
            candidates := candidates + [pools[ids[j]]];
          } else {
            SeeStale(lower, pools, keywordIndex, text, words, seen, candidates, ids[j]);
          }
          seen := seen + {ids[j]};
        }
      }
    }

    method MatchesIntent(text: string, kws: seq<string>) returns (hit: bool)
      ensures hit <==> exists k :: k in Keywords(lower, kws) && Contains(text, k)
    {
      for i := 0 to |kws|
        invariant forall k :: k in Keywords(lower, kws[..i]) ==> !Contains(text, k)
      {
        assert kws[..i + 1][..i] == kws[..i];
        if Contains(text, Lower(lower, kws[i])) {
          KeywordsAt(lower, kws, i);
          return true;
        }
      }
      assert kws[..|kws|] == kws;
      hit := false;
    }

    /** The scan of all pools, in an order that the caller cannot predict. */
    method ScanPhase(text: string, ghost words: seq<string>, seen0: set<string>, candidates0: seq<ToolPool>)
      returns (seen: set<string>, candidates: seq<ToolPool>)
      requires Keyed(pools) && SeenHits(lower, pools, keywordIndex, text, words, seen0, candidates0)
      ensures SeenHits(lower, pools, keywordIndex, text, words, seen, candidates)
      ensures seen0 <= seen
      ensures forall id :: Hit(lower, pools, text, id) ==> id in seen
    {
      hide Contains, Keywords, SeenHits;
      seen, candidates := seen0, candidates0;
      var rest := pools.Keys;
      while rest != {}
        invariant rest <= pools.Keys && seen0 <= seen
        invariant SeenHits(lower, pools, keywordIndex, text, words, seen, candidates)
        invariant forall id :: Hit(lower, pools, text, id) && id !in rest ==> id in seen
        decreases rest
      {
        var id :| id in rest;
        var pool := pools[id];
        rest := rest - {id};
        if pool.id in seen {
          continue;
        }
        var hit := MatchesIntent(text, pool.keywords);
        if hit {
          SeeOne(lower, pools, keywordIndex, text, words, seen, candidates, id);
          seen := seen + {pool.id};
          candidates := candidates + [pool];
        }
      }
    }

    method PickFallback() returns (pool: Option<ToolPool>)
      ensures Fallback(pools, pool)
    {
      if "general" in pools {
        return Some(pools["general"]);
      }
      if pools.Keys != {} {
        var id :| id in pools.Keys;
        return Some(pools[id]);
      }
      pool := None;
    }

    /** One pool of greatest priority among those indexed under a token or with a
        keyword in the intent; the fallback when there is none, or no token. */
    method Route(intent: string) returns (pool: Option<ToolPool>)
      requires Keyed(pools)
      ensures RouteAnswer(lower, pools, keywordIndex, seq(|intent|, i requires 0 <= i < |intent| => lower(intent[i])), pool)
    {
      hide Lower, SEPARATORS, Passes, Hit, Indexed, Keyed, SeenHits;
      var text := Lower(lower, intent);
      LowerIs(lower, intent);
      var words := Tokenize(text);
      var seen, candidates := IndexPhase(text, words);
      for i := 0 to |words|
        invariant SeenHits(lower, pools, keywordIndex, text, words, seen, candidates)
        invariant forall id :: Indexed(pools, keywordIndex, words, id) ==> id in seen
        invariant i > 0 ==> forall id :: Hit(lower, pools, text, id) ==> id in seen
        invariant words == [] ==> candidates == []
      {
        seen, candidates := ScanPhase(text, words, seen, candidates);
      }
      SeenFacts(lower, pools, keywordIndex, text, words, seen, candidates);
      if |candidates| == 0 {
        pool := PickFallback();
        return;
      }
      var best := PickBest(candidates);
      pool := Some(best);
    }
  }

  /** Sorting by decreasing priority, not stably, and taking the first: some
      candidate of greatest priority. */
  method PickBest(candidates: seq<ToolPool>) returns (best: ToolPool)
    requires candidates != []
    ensures best in candidates && forall p :: p in candidates ==> p.priority <= best.priority
  {
    ghost var _ := GreatestExists(candidates);
    best :| best in candidates && forall p :: p in candidates ==> p.priority <= best.priority;
  }

  lemma GreatestExists(candidates: seq<ToolPool>) returns (best: ToolPool)
    requires candidates != []
    ensures best in candidates && forall p :: p in candidates ==> p.priority <= best.priority
  {
    best := candidates[0];
    for i := 1 to |candidates|
      invariant best in candidates
      invariant forall j :: 0 <= j < i ==> candidates[j].priority <= best.priority
    {
      if candidates[i].priority > best.priority {
        best := candidates[i];
      }
    }
  }

  // ---- What Route promises ----

  /** Pool `id` has a keyword that occurs in the text. */
  ghost predicate Hit(lower: CharMap, pools: Pools, text: string, id: string) {
    id in pools && exists k :: k in Keywords(lower, pools[id].keywords) && Contains(text, k)
  }

  /** The index lists pool `id` under some token. */
  ghost predicate Indexed(pools: Pools, index: Index, words: seq<string>, id: string) {
    id in pools && exists k :: 0 <= k < |words| && id in Ids(index, words[k])
  }

  ghost predicate Eligible(lower: CharMap, pools: Pools, index: Index, text: string, words: seq<string>, id: string) {
    Indexed(pools, index, words, id) || Hit(lower, pools, text, id)
  }

  ghost predicate BestOf(lower: CharMap, pools: Pools, index: Index, text: string, words: seq<string>, pool: ToolPool) {
    && Eligible(lower, pools, index, text, words, pool.id) && pool.id in pools && pools[pool.id] == pool
    && forall id :: Eligible(lower, pools, index, text, words, id) ==> id in pools && pools[id].priority <= pool.priority
  }

  /** When the index matches the pools it adds nothing to a plain scan: a pool that
      it lists under a token has a keyword in the intent. */
  lemma IndexAddsNothing(lower: CharMap, pools: Pools, index: Index, text: string, id: string)
    requires Matches(lower, pools, index)
    ensures Eligible(lower, pools, index, text, Passes(text, SEPARATORS), id) <==> Hit(lower, pools, text, id)
  {
    hide Passes, SEPARATORS, Contains, Keywords;
    var words := Passes(text, SEPARATORS);
    if Indexed(pools, index, words, id) {
      var k :| 0 <= k < |words| && id in Ids(index, words[k]);
      assert HasKeyword(lower, pools, id, words[k]);
      TokensAreSubstrings(text, words[k]);
    }
  }

  /** What `Route` may answer: a best eligible pool when there is a token and such a
      pool, else the fallback. */
  ghost predicate RouteAnswer(lower: CharMap, pools: Pools, index: Index, text: string, pool: Option<ToolPool>) {
    var words := Passes(text, SEPARATORS);
    if words != [] && exists id :: Eligible(lower, pools, index, text, words, id)
    then pool.Some? && BestOf(lower, pools, index, text, words, pool.value)
    else Fallback(pools, pool)
  }

  /** What a plain scan of the pools may answer: a best hit, else the fallback. */
  ghost predicate ScanAnswer(lower: CharMap, pools: Pools, text: string, pool: Option<ToolPool>) {
    if exists id :: Hit(lower, pools, text, id)
    then pool.Some? && BestHit(lower, pools, text, pool.value)
    else Fallback(pools, pool)
  }

  /** With an exact index and a text that is more than spaces and separators, `Route`
      answers just like the plain scan. */
  lemma RouteRefinesScan(lower: CharMap, pools: Pools, index: Index, text: string, pool: Option<ToolPool>)
    requires Matches(lower, pools, index) && HasInk(text)
    ensures RouteAnswer(lower, pools, index, text, pool) <==> ScanAnswer(lower, pools, text, pool)
  {
    hide Passes, SEPARATORS, HasInk, Hit, Eligible, Matches, Fallback;
    TokensExist(text);
    forall id ensures Eligible(lower, pools, index, text, Passes(text, SEPARATORS), id) <==> Hit(lower, pools, text, id) {
      IndexAddsNothing(lower, pools, index, text, id);
    }
  }

  ghost predicate BestHit(lower: CharMap, pools: Pools, text: string, pool: ToolPool) {
    && Hit(lower, pools, text, pool.id) && pool.id in pools && pools[pool.id] == pool
    && forall id :: Hit(lower, pools, text, id) ==> id in pools && pools[id].priority <= pool.priority
  }

  ghost predicate Fallback(pools: Pools, pool: Option<ToolPool>) {
    if "general" in pools then pool == Some(pools["general"])
    else if pools != map[] then pool.Some? && exists id :: id in pools && pools[id] == pool.value
    else pool == None
  }

  /** The candidates are the present pools seen so far, and all of them are eligible. */
  ghost predicate SeenHits(lower: CharMap, pools: Pools, index: Index, text: string, words: seq<string>,
                           seen: set<string>, candidates: seq<ToolPool>)
  {
    && (forall id :: id in seen && id in pools ==>
          Eligible(lower, pools, index, text, words, id) && pools[id] in candidates)
    && (forall p :: p in candidates ==> p.id in seen && p.id in pools && pools[p.id] == p)
  }

  lemma NothingSeen(lower: CharMap, pools: Pools, index: Index, text: string, words: seq<string>)
    ensures SeenHits(lower, pools, index, text, words, {}, [])
  {
  }

  lemma SeeOne(lower: CharMap, pools: Pools, index: Index, text: string, words: seq<string>,
               seen: set<string>, candidates: seq<ToolPool>, id: string)
    requires Keyed(pools) && SeenHits(lower, pools, index, text, words, seen, candidates)
    requires id in pools && Eligible(lower, pools, index, text, words, id)
    ensures SeenHits(lower, pools, index, text, words, seen + {id}, candidates + [pools[id]])
  {
    hide Eligible;
  }

  /** An id that the index still lists but that is gone from the pools. */
  lemma SeeStale(lower: CharMap, pools: Pools, index: Index, text: string, words: seq<string>,
                 seen: set<string>, candidates: seq<ToolPool>, id: string)
    requires SeenHits(lower, pools, index, text, words, seen, candidates) && id !in pools
    ensures SeenHits(lower, pools, index, text, words, seen + {id}, candidates)
  {
    hide Eligible;
  }

  lemma SeenFacts(lower: CharMap, pools: Pools, index: Index, text: string, words: seq<string>,
                  seen: set<string>, candidates: seq<ToolPool>)
    requires SeenHits(lower, pools, index, text, words, seen, candidates)
    ensures forall id :: id in seen && id in pools ==>
              Eligible(lower, pools, index, text, words, id) && pools[id] in candidates
    ensures forall p :: p in candidates ==> p.id in seen && p.id in pools && pools[p.id] == p
    ensures forall id :: Eligible(lower, pools, index, text, words, id) ==> id in pools
  {
  }

  lemma {:induction false} KeywordsAt(lower: CharMap, kws: seq<string>, i: nat)
    requires i < |kws|
    ensures Lower(lower, kws[i]) in Keywords(lower, kws)
    decreases |kws|
  {
    if i == |kws| - 1 {
    } else {
      KeywordsAt(lower, kws[..|kws| - 1], i);
    }
  }

  // ---- Letter by letter ----

  /** Lower-casing replaces every character by its lower case. */
  lemma {:induction false} LowerIs(lower: CharMap, s: string)
    ensures Lower(lower, s) == seq(|s|, i requires 0 <= i < |s| => lower(s[i]))
    decreases |s|
  {
    if s == "" {
    } else {
      LowerIs(lower, s[..|s| - 1]);
    }
  }

  lemma {:induction false} KeywordsAre(lower: CharMap, kws: seq<string>)
    ensures |Keywords(lower, kws)| == |kws|
    ensures forall n :: 0 <= n < |kws| ==> Keywords(lower, kws)[n] == Lower(lower, kws[n])
    decreases |kws|
  {
    hide Lower;
    if kws == [] {
    } else {
      KeywordsAre(lower, kws[..|kws| - 1]);
    }
  }

  /** The keyword occurs in the intent at `i`, up to letter case. */
  ghost predicate OccursAt(lower: CharMap, intent: string, k: string, i: int) {
    0 <= i && i + |k| <= |intent| && forall j :: 0 <= j < |k| ==> lower(k[j]) == lower(intent[i + j])
  }

  /** `t` is `s` in lower case. */
  ghost predicate Lowers(lower: CharMap, s: string, t: string) {
    |t| == |s| && forall i :: 0 <= i < |s| ==> t[i] == lower(s[i])
  }

  ghost predicate SameLetters(lower: CharMap, a: string, b: string) {
    |a| == |b| && forall i :: 0 <= i < |a| ==> lower(a[i]) == lower(b[i])
  }

  lemma ContainsIffOccurs(lower: CharMap, intent: string, text: string, k: string)
    requires Lowers(lower, intent, text)
    ensures Contains(text, Lower(lower, k)) <==> exists i :: OccursAt(lower, intent, k, i)
  {
    hide Lower;
    LowerIs(lower, k);
    var part := Lower(lower, k);
    if Contains(text, part) {
      var i :| 0 <= i <= |text| && part <= text[i..];
      assert forall j :: 0 <= j < |k| ==> part[j] == text[i..][j] == text[i + j];
      assert OccursAt(lower, intent, k, i);
    }
    if i :| OccursAt(lower, intent, k, i) {
      assert part == text[i..][..|k|];
    }
  }

  /** A pool is hit exactly when one of its keywords occurs in the intent, up to
      letter case. */
  lemma HitIffOccurs(lower: CharMap, pools: Pools, intent: string, text: string, id: string)
    requires Lowers(lower, intent, text)
    ensures Hit(lower, pools, text, id)
            <==> id in pools && exists k, i :: k in pools[id].keywords && OccursAt(lower, intent, k, i)
  {
    hide Contains, Lower, OccursAt, Lowers, Keywords;
    if id in pools {
      var kws := pools[id].keywords;
      KeywordsAre(lower, kws);
      forall n | 0 <= n < |kws|
        ensures Contains(text, Keywords(lower, kws)[n]) <==> exists i :: OccursAt(lower, intent, kws[n], i)
      {
        ContainsIffOccurs(lower, intent, text, kws[n]);
      }
      if k, i :| k in kws && OccursAt(lower, intent, k, i) {
        var n :| 0 <= n < |kws| && kws[n] == k;
        assert Keywords(lower, kws)[n] in Keywords(lower, kws);
      }
    }
  }

  /** A pool has a keyword exactly when it is one of its own in lower case. */
  lemma KeywordIffLowered(lower: CharMap, pools: Pools, id: string, k: string)
    ensures HasKeyword(lower, pools, id, k) <==> id in pools && exists w :: w in pools[id].keywords && Lowers(lower, w, k)
  {
    hide Lower, Keywords;
    if id in pools {
      var kws := pools[id].keywords;
      KeywordsAre(lower, kws);
      forall n | 0 <= n < |kws| ensures Lowers(lower, kws[n], k) <==> Keywords(lower, kws)[n] == k {
        LowerIs(lower, kws[n]);
      }
      if w :| w in kws && Lowers(lower, w, k) {
        var n :| 0 <= n < |kws| && kws[n] == w;
        assert Keywords(lower, kws)[n] in Keywords(lower, kws);
      }
    }
  }

  /** Letter case never matters in an intent: intents that agree letter by letter have
      the same possible answers. */
  lemma RouteIgnoresCase(lower: CharMap, pools: Pools, index: Index, a: string, b: string, pool: Option<ToolPool>)
    requires SameLetters(lower, a, b)
    ensures RouteAnswer(lower, pools, index, seq(|a|, i requires 0 <= i < |a| => lower(a[i])), pool)
            <==> RouteAnswer(lower, pools, index, seq(|b|, i requires 0 <= i < |b| => lower(b[i])), pool)
  {
    hide RouteAnswer;
    assert seq(|a|, i requires 0 <= i < |a| => lower(a[i])) == seq(|b|, i requires 0 <= i < |b| => lower(b[i]));
  }

  ghost predicate SameKeywords(lower: CharMap, a: seq<string>, b: seq<string>) {
    |a| == |b| && forall n :: 0 <= n < |a| ==> SameLetters(lower, a[n], b[n])
  }

  /** Nor in a keyword: adding pools whose keywords agree letter by letter gives the same
      index, and they have the same keywords and are hit by the same intents. */
  lemma KeywordsIgnoreCase(lower: CharMap, t: Table, pool: ToolPool, kws: seq<string>, k: string, text: string)
    requires SameKeywords(lower, pool.keywords, kws)
    ensures var one, other := Apply(lower, t, Add(pool)), Apply(lower, t, Add(pool.(keywords := kws)));
            && one.index == other.index
            && (HasKeyword(lower, one.pools, pool.id, k) <==> HasKeyword(lower, other.pools, pool.id, k))
            && (Hit(lower, one.pools, text, pool.id) <==> Hit(lower, other.pools, text, pool.id))
  {
    hide Lower, Keywords, Contains, IndexAdd;
    KeywordsAre(lower, pool.keywords);
    KeywordsAre(lower, kws);
    forall n | 0 <= n < |kws| ensures Lower(lower, pool.keywords[n]) == Lower(lower, kws[n]) {
      LowerIs(lower, pool.keywords[n]);
      LowerIs(lower, kws[n]);
    }
    assert Keywords(lower, pool.keywords) == Keywords(lower, kws);
  }

  // ---- The index over runs of updates ----

  lemma AddSnoc(index: Index, id: string, ks: seq<string>, k: string)
    ensures var rest := IndexAdd(index, id, ks);
            IndexAdd(index, id, ks + [k]) == rest[k := Ids(rest, k) + [id]]
  {
    assert (ks + [k])[..|ks|] == ks;
  }

  lemma AddStart(index: Index, id: string, lower: CharMap, kws: seq<string>)
    ensures IndexAdd(index, id, Keywords(lower, kws[..0])) == index
  {
  }

  lemma RemoveStart(index: Index, id: string, lower: CharMap, kws: seq<string>)
    ensures IndexRemove(index, id, Keywords(lower, kws[..0])) == index
  {
  }

  lemma KeywordsNext(lower: CharMap, kws: seq<string>, i: nat)
    requires i < |kws|
    ensures Keywords(lower, kws[..i + 1]) == Keywords(lower, kws[..i]) + [Lower(lower, kws[i])]
  {
    assert kws[..i + 1][..i] == kws[..i];
  }

  lemma RemoveSnoc(index: Index, id: string, ks: seq<string>, k: string)
    ensures IndexRemove(index, id, ks + [k]) == DropId(IndexRemove(index, id, ks), id, k)
  {
    assert (ks + [k])[..|ks|] == ks;
  }

  lemma {:induction false} WithoutFacts(ids: seq<string>, id: string)
    ensures forall x :: x in Without(ids, id) <==> x in ids && x != id
    ensures id !in ids ==> Without(ids, id) == ids
    decreases |ids|
  {
    if ids == [] {
    } else {
      WithoutFacts(ids[..|ids| - 1], id);
      assert ids == ids[..|ids| - 1] + [ids[|ids| - 1]];
    }
  }

  lemma {:induction false} WithoutCounts(ids: seq<string>, id: string, x: string)
    ensures multiset(Without(ids, id))[x] == if x == id then 0 else multiset(ids)[x]
    decreases |ids|
  {
    if ids == [] {
    } else {
      WithoutCounts(ids[..|ids| - 1], id, x);
      assert ids == ids[..|ids| - 1] + [ids[|ids| - 1]];
    }
  }

  lemma AddedNext(index: Index, id: string, ks: seq<string>, last: string, k: string)
    ensures Ids(IndexAdd(index, id, ks + [last]), k)
         == Ids(IndexAdd(index, id, ks), k) + if k == last then [id] else []
  {
    AddSnoc(index, id, ks, last);
  }

  lemma OneMore(id: string, n: nat)
    ensures seq(n, i => id) + [id] == seq(n + 1, i => id)
  {
  }

  /** Adding appends the id once for each time the keyword is among the pool's. */
  lemma {:induction false} AddedOncePerKeyword(index: Index, id: string, ks: seq<string>, k: string)
    ensures Ids(IndexAdd(index, id, ks), k) == Ids(index, k) + seq(multiset(ks)[k], i => id)
    decreases |ks|
  {
    hide Ids;
    if ks == [] {
    } else {
      hide IndexAdd;
      var front, last := ks[..|ks| - 1], ks[|ks| - 1];
      AddedOncePerKeyword(index, id, front, k);
      AddedNext(index, id, front, last, k);
      OneMore(id, multiset(front)[k]);
      assert ks == front + [last];
    }
  }

  /** Adding lists the pool under its keywords and changes nothing else. */
  lemma {:induction false} AddedIds(index: Index, id: string, ks: seq<string>, k: string)
    ensures forall x :: x in Ids(IndexAdd(index, id, ks), k) <==> x in Ids(index, k) || (x == id && k in ks)
    ensures Without(Ids(IndexAdd(index, id, ks), k), id) == Without(Ids(index, k), id)
    ensures k !in ks ==> Ids(IndexAdd(index, id, ks), k) == Ids(index, k)
    decreases |ks|
  {
    hide Without;
    if ks == [] {
    } else {
      var n := |ks| - 1;
      var rest := IndexAdd(index, id, ks[..n]);
      AddedIds(index, id, ks[..n], k);
      assert ks == ks[..n] + [ks[n]];
      WithoutSnoc(Ids(rest, k), id);
    }
  }

  lemma WithoutSnoc(ids: seq<string>, id: string)
    ensures Without(ids + [id], id) == Without(ids, id)
  {
    assert (ids + [id])[..|ids|] == ids;
  }

  lemma {:induction false} AddKeepsLists(index: Index, id: string, ks: seq<string>)
    requires NoEmptyLists(index)
    ensures NoEmptyLists(IndexAdd(index, id, ks))
    decreases |ks|
  {
    if ks == [] {
    } else {
      AddKeepsLists(index, id, ks[..|ks| - 1]);
    }
  }

  /** Removing unlists the pool under its keywords and changes nothing else. */
  lemma {:induction false} RemovedIds(index: Index, id: string, ks: seq<string>, k: string)
    requires NoEmptyLists(index)
    ensures Ids(IndexRemove(index, id, ks), k) == if k in ks then Without(Ids(index, k), id) else Ids(index, k)
    ensures NoEmptyLists(IndexRemove(index, id, ks))
    decreases |ks|
  {
    hide Without;
    if ks == [] {
    } else {
      var n := |ks| - 1;
      var rest := IndexRemove(index, id, ks[..n]);
      RemovedIds(index, id, ks[..n], k);
      assert ks == ks[..n] + [ks[n]];
      WithoutFacts(Ids(index, k), id);
      WithoutFacts(Without(Ids(index, k), id), id);
    }
  }

  lemma SameIndex(a: Index, b: Index)
    requires NoEmptyLists(a) && NoEmptyLists(b) && forall k :: Ids(a, k) == Ids(b, k)
    ensures a == b
  {
    forall k ensures k in a <==> k in b {
      assert Ids(a, k) == Ids(b, k);
    }
    forall k | k in a ensures a[k] == b[k] {
      assert Ids(a, k) == Ids(b, k);
    }
  }

  /** Removing a pool that was just added under a fresh id restores the index. */
  lemma AddThenRemove(lower: CharMap, pools: Pools, index: Index, pool: ToolPool)
    requires Matches(lower, pools, index) && NoEmptyLists(index) && pool.id !in pools
    ensures var ks := Keywords(lower, pool.keywords);
            IndexRemove(IndexAdd(index, pool.id, ks), pool.id, ks) == index
  {
    hide Keywords, IndexAdd, IndexRemove;
    var ks := Keywords(lower, pool.keywords);
    var added := IndexAdd(index, pool.id, ks);
    AddKeepsLists(index, pool.id, ks);
    RemovedIds(added, pool.id, ks, "");
    var back := IndexRemove(added, pool.id, ks);
    forall k ensures Ids(back, k) == Ids(index, k) {
      AddedIds(index, pool.id, ks, k);
      RemovedIds(added, pool.id, ks, k);
      assert !HasKeyword(lower, pools, pool.id, k);
      WithoutFacts(Ids(index, k), pool.id);
    }
    SameIndex(back, index);
  }

  /** Adding keeps the index exact if and only if the id is fresh or the new pool
      has all keywords of the one it replaces. */
  lemma AddKeepsMatchesIff(lower: CharMap, pools: Pools, index: Index, pool: ToolPool)
    requires Matches(lower, pools, index)
    ensures Matches(lower, pools[pool.id := pool], IndexAdd(index, pool.id, Keywords(lower, pool.keywords)))
            <==> (pool.id in pools ==> forall k :: k in Keywords(lower, pools[pool.id].keywords) ==>
                                                   k in Keywords(lower, pool.keywords))
  {
    hide Keywords, IndexAdd;
    var ks := Keywords(lower, pool.keywords);
    var now := pools[pool.id := pool];
    var added := IndexAdd(index, pool.id, ks);
    forall k, id
      ensures id in Ids(added, k) <==> HasKeyword(lower, pools, id, k) || (id == pool.id && k in ks)
      ensures HasKeyword(lower, now, id, k) <==> if id == pool.id then k in ks else HasKeyword(lower, pools, id, k)
    {
      AddedIds(index, pool.id, ks, k);
    }
    if pool.id in pools && Matches(lower, now, added) {
      forall k | k in Keywords(lower, pools[pool.id].keywords) ensures k in ks {
        assert HasKeyword(lower, pools, pool.id, k);
        assert pool.id in Ids(added, k);
        assert HasKeyword(lower, now, pool.id, k);
      }
    }
  }

  lemma RemoveKeepsMatches(lower: CharMap, pools: Pools, index: Index, id: string)
    requires Matches(lower, pools, index) && NoEmptyLists(index) && id in pools
    ensures Matches(lower, pools - {id}, IndexRemove(index, id, Keywords(lower, pools[id].keywords)))
  {
    hide Keywords, IndexRemove;
    var ks := Keywords(lower, pools[id].keywords);
    forall k, x ensures x in Ids(IndexRemove(index, id, ks), k) <==> HasKeyword(lower, pools - {id}, x, k) {
      RemovedIds(index, id, ks, k);
      WithoutFacts(Ids(index, k), id);
      assert x in Ids(index, k) <==> HasKeyword(lower, pools, x, k);
    }
  }

  datatype Update = Add(pool: ToolPool) | Remove(id: string)

  datatype Table = Table(pools: Pools, index: Index)

  ghost function Apply(lower: CharMap, t: Table, u: Update): Table {
    match u
    case Add(p) => Table(t.pools[p.id := p], IndexAdd(t.index, p.id, Keywords(lower, p.keywords)))
    case Remove(id) =>
      if id !in t.pools then t
      else Table(t.pools - {id}, IndexRemove(t.index, id, Keywords(lower, t.pools[id].keywords)))
  }

  ghost function ApplyAll(lower: CharMap, updates: seq<Update>): Table {
    if updates == [] then Table(map[], map[])
    else Apply(lower, ApplyAll(lower, updates[..|updates| - 1]), updates[|updates| - 1])
  }

  /** Every pool is added under an id that is not in use. */
  ghost predicate AllFresh(lower: CharMap, updates: seq<Update>) {
    forall i :: 0 <= i < |updates| && updates[i].Add? ==> updates[i].pool.id !in ApplyAll(lower, updates[..i]).pools
  }

  /** No add drops a keyword of the pool it replaces. */
  ghost predicate NoneDropped(lower: CharMap, updates: seq<Update>) {
    forall i :: 0 <= i < |updates| ==> Keeps(lower, ApplyAll(lower, updates[..i]).pools, updates[i])
  }

  ghost predicate Keeps(lower: CharMap, pools: Pools, u: Update) {
    u.Add? && u.pool.id in pools ==>
      forall k :: k in Keywords(lower, pools[u.pool.id].keywords) ==> k in Keywords(lower, u.pool.keywords)
  }

  ghost predicate Exact(lower: CharMap, t: Table) {
    Matches(lower, t.pools, t.index)
  }

  /** After every update of the run, the first none included, the index is exact. */
  ghost predicate AlwaysExact(lower: CharMap, updates: seq<Update>) {
    forall n :: 0 <= n <= |updates| ==> Exact(lower, ApplyAll(lower, updates[..n]))
  }

  /** Whatever the updates, no keyword keeps an empty list, and pools are filed under
      their own ids. */
  lemma {:induction false} RunShape(lower: CharMap, updates: seq<Update>)
    ensures NoEmptyLists(ApplyAll(lower, updates).index) && Keyed(ApplyAll(lower, updates).pools)
    decreases |updates|
  {
    hide Keywords, IndexAdd, IndexRemove;
    if updates == [] {
    } else {
      var before, u := ApplyAll(lower, updates[..|updates| - 1]), updates[|updates| - 1];
      RunShape(lower, updates[..|updates| - 1]);
      match u
      case Add(p) =>
        AddKeepsLists(before.index, p.id, Keywords(lower, p.keywords));
      case Remove(id) =>
        if id in before.pools {
          RemovedIds(before.index, id, Keywords(lower, before.pools[id].keywords), "");
        }
    }
  }

  /** From an exact table an update leads to an exact one if and only if it drops nothing. */
  lemma StepExactIff(lower: CharMap, t: Table, u: Update)
    requires Exact(lower, t) && NoEmptyLists(t.index)
    ensures Exact(lower, Apply(lower, t, u)) <==> Keeps(lower, t.pools, u)
  {
    hide Keywords, IndexAdd, IndexRemove, Matches;
    match u
    case Add(p) =>
      AddKeepsMatchesIff(lower, t.pools, t.index, p);
    case Remove(id) =>
      if id in t.pools {
        RemoveKeepsMatches(lower, t.pools, t.index, id);
      }
  }

  lemma ApplyNext(lower: CharMap, updates: seq<Update>, n: nat)
    requires n < |updates|
    ensures ApplyAll(lower, updates[..n + 1]) == Apply(lower, ApplyAll(lower, updates[..n]), updates[n])
  {
    assert updates[..n + 1][..n] == updates[..n];
  }

  lemma {:induction false} PrefixExact(lower: CharMap, updates: seq<Update>, n: nat)
    requires NoneDropped(lower, updates) && n <= |updates|
    ensures Exact(lower, ApplyAll(lower, updates[..n]))
    decreases n
  {
    hide Keeps, Apply;
    if n == 0 {
    } else {
      hide ApplyAll, Exact;
      PrefixExact(lower, updates, n - 1);
      RunShape(lower, updates[..n - 1]);
      ApplyNext(lower, updates, n - 1);
      StepExactIff(lower, ApplyAll(lower, updates[..n - 1]), updates[n - 1]);
    }
  }

  /** The index is exact throughout a run if and only if no add drops a keyword of
      the pool it replaces; in particular when every added id is fresh. */
  lemma AlwaysExactIff(lower: CharMap, updates: seq<Update>)
    ensures AlwaysExact(lower, updates) <==> NoneDropped(lower, updates)
    ensures AllFresh(lower, updates) ==> NoneDropped(lower, updates)
  {
    hide Exact, Keeps, ApplyAll, Apply;
    if NoneDropped(lower, updates) {
      forall n | 0 <= n <= |updates| ensures Exact(lower, ApplyAll(lower, updates[..n])) {
        PrefixExact(lower, updates, n);
      }
    }
    if AlwaysExact(lower, updates) {
      forall i | 0 <= i < |updates| ensures Keeps(lower, ApplyAll(lower, updates[..i]).pools, updates[i]) {
        assert Exact(lower, ApplyAll(lower, updates[..i])) && Exact(lower, ApplyAll(lower, updates[..i + 1]));
        RunShape(lower, updates[..i]);
        ApplyNext(lower, updates, i);
        StepExactIff(lower, ApplyAll(lower, updates[..i]), updates[i]);
      }
    }
    FreshKeeps(lower, updates);
  }

  lemma FreshKeeps(lower: CharMap, updates: seq<Update>)
    ensures AllFresh(lower, updates) ==> NoneDropped(lower, updates)
  {
    hide ApplyAll, Keywords;
  }

  /** So over any such run the index is exact at the end. */
  lemma RunMatches(lower: CharMap, updates: seq<Update>)
    requires NoneDropped(lower, updates)
    ensures var t := ApplyAll(lower, updates);
            Matches(lower, t.pools, t.index) && NoEmptyLists(t.index) && Keyed(t.pools)
  {
    hide ApplyAll, NoneDropped, Matches;
    PrefixExact(lower, updates, |updates|);
    RunShape(lower, updates);
    assert updates[..|updates|] == updates;
  }

  // ---- Where Route and the scan part ----

  /** A pool without keywords for the fallback, and one whose keyword is the intent. */
  ghost function TwoPools(intent: string): seq<Update> {
    [Add(ToolPool("general", [], 0)), Add(ToolPool("exact", [intent], 1))]
  }

  lemma TwoPoolsTable(lower: CharMap, intent: string)
    ensures NoneDropped(lower, TwoPools(intent))
    ensures ApplyAll(lower, TwoPools(intent)).pools
         == map["general" := ToolPool("general", [], 0), "exact" := ToolPool("exact", [intent], 1)]
  {
    hide IndexAdd, Keywords;
    var updates := TwoPools(intent);
    assert updates[..0] == [] && updates[..1] == [updates[0]] && updates[..2] == updates;
    assert updates[..1][..0] == [];
    assert "general"[0] != "exact"[0];
    assert ApplyAll(lower, updates[..1]).pools == map["general" := ToolPool("general", [], 0)];
  }

  /** An intent of nothing but spaces and separators falls through to the fallback,
      even past a pool whose keyword it is. */
  lemma RoutePassesOverHit(lower: CharMap, intent: string)
    requires !HasInk(Lower(lower, intent))
    ensures var t, general := ApplyAll(lower, TwoPools(intent)), Some(ToolPool("general", [], 0));
            && RouteAnswer(lower, t.pools, t.index, Lower(lower, intent), general)
            && !ScanAnswer(lower, t.pools, Lower(lower, intent), general)
  {
    hide Passes, SEPARATORS, HasInk, ApplyAll, TwoPools, Lower;
    var text, t := Lower(lower, intent), ApplyAll(lower, TwoPools(intent));
    TwoPoolsTable(lower, intent);
    TokensExist(text);
    KeywordsAt(lower, [intent], 0);
    ContainsSelf(text);
    assert Hit(lower, t.pools, text, "exact");
    assert !Hit(lower, t.pools, text, "general");
  }

  /** On every table built by updates that drop nothing `Route` answers like the scan. */
  ghost predicate RoutesLikeScan(lower: CharMap, intent: string) {
    forall updates, pool :: NoneDropped(lower, updates) ==>
      var t := ApplyAll(lower, updates);
      RouteAnswer(lower, t.pools, t.index, Lower(lower, intent), pool) <==> ScanAnswer(lower, t.pools, Lower(lower, intent), pool)
  }

  /** Exactly the intents with a character that is neither space nor separator are
      routed like the scan, whatever the pools. */
  lemma RoutesLikeScanIff(lower: CharMap, intent: string)
    ensures RoutesLikeScan(lower, intent) <==> HasInk(Lower(lower, intent))
  {
    hide HasInk, Lower, ApplyAll, NoneDropped, RouteAnswer, ScanAnswer, TwoPools;
    if HasInk(Lower(lower, intent)) {
      forall updates, pool | NoneDropped(lower, updates)
        ensures RouteAnswer(lower, ApplyAll(lower, updates).pools, ApplyAll(lower, updates).index, Lower(lower, intent), pool)
            <==> ScanAnswer(lower, ApplyAll(lower, updates).pools, Lower(lower, intent), pool)
      {
        RunMatches(lower, updates);
        RouteRefinesScan(lower, ApplyAll(lower, updates).pools, ApplyAll(lower, updates).index, Lower(lower, intent), pool);
      }
    } else {
      TwoPoolsTable(lower, intent);
      RoutePassesOverHit(lower, intent);
    }
  }
}
