/** The quota of the CI actions cache: saving an entry evicts the oldest other
    entries of its scope until the scope fits again. */
module CacheQuota {
  import opened Basics
  import opened Order

  datatype Entry = Entry(path: string, size: nat, modified: nat)

  /** The entries of one scope directory by path. */
  type Scope = map<string, Entry>

  ghost predicate WellKeyed(scope: Scope) { forall p :: p in scope ==> scope[p].path == p }

  /** The order of eviction: by modification time, then by path. */
  predicate Before(a: Entry, b: Entry)
  {
    a.modified < b.modified || (a.modified == b.modified && Less(a.path, b.path))
  }

  ghost predicate Sorted(es: seq<Entry>)
  {
    forall i, j :: 0 <= i < j < |es| ==> Before(es[i], es[j])
  }

  function Sizes(es: seq<Entry>): nat
  {
    if es == [] then 0 else es[0].size + Sizes(es[1..])
  }

  ghost predicate DistinctPaths(es: seq<Entry>)
  {
    forall i, j :: 0 <= i < j < |es| ==> es[i].path != es[j].path
  }

  /** The scope that holds exactly these entries. */
  ghost function ScopeOf(es: seq<Entry>): Scope
  {
    if es == [] then map[] else ScopeOf(es[1..])[es[0].path := es[0]]
  }

  /** The entries of a scope, in the order of eviction. */
  ghost predicate Lists(es: seq<Entry>, scope: Scope)
  {
    Sorted(es) && DistinctPaths(es) && ScopeOf(es) == scope
  }

  ghost function TotalSize(scope: Scope): nat
    decreases scope
  {
    if scope == map[] then 0
    else
      var p :| p in scope;
      scope[p].size + TotalSize(scope - {p})
  }

  // ----- scopes and their listings

  lemma {:induction false} ScopeHas(es: seq<Entry>, p: string)
    requires DistinctPaths(es)
    ensures p in ScopeOf(es) <==> exists i :: 0 <= i < |es| && es[i].path == p
  {
    if es != [] {
      ScopeHas(es[1..], p);
      if p in ScopeOf(es[1..]) {
        var i :| 0 <= i < |es[1..]| && es[1..][i].path == p;
        assert es[i + 1].path == p;
      }
      forall i | 0 <= i < |es| && es[i].path == p
        ensures p in ScopeOf(es)
      {
        if i > 0 { assert es[1..][i - 1].path == p; }
      }
    }
  }

  lemma {:induction false} ScopeAt(es: seq<Entry>, i: nat)
    requires DistinctPaths(es) && i < |es|
    ensures es[i].path in ScopeOf(es) && ScopeOf(es)[es[i].path] == es[i]
  {
    if i > 0 { ScopeAt(es[1..], i - 1); }
  }

  /** Evicting the first listed entry leaves what the rest lists. */
  lemma ScopeTail(es: seq<Entry>)
    requires DistinctPaths(es) && es != []
    ensures ScopeOf(es) - {es[0].path} == ScopeOf(es[1..])
    ensures es[0].path !in ScopeOf(es[1..])
  {
    ScopeHas(es[1..], es[0].path);
  }

  lemma {:induction false} ScopeInsert(a: seq<Entry>, e: Entry, b: seq<Entry>)
    requires forall i :: 0 <= i < |a| ==> a[i].path != e.path
    ensures ScopeOf(a + [e] + b) == ScopeOf(a + b)[e.path := e]
  {
    if a == [] {
      assert a + [e] + b == [e] + b && a + b == b && ([e] + b)[1..] == b;
    } else {
      ScopeInsert(a[1..], e, b);
      assert (a + [e] + b)[1..] == a[1..] + [e] + b;
      assert (a + b)[1..] == a[1..] + b;
    }
  }

  // ----- total sizes

  lemma {:induction false} TotalWithout(scope: Scope, p: string)
    requires p in scope
    ensures TotalSize(scope) == scope[p].size + TotalSize(scope - {p})
    decreases scope
  {
    var q :| q in scope && TotalSize(scope) == scope[q].size + TotalSize(scope - {q});
    if q != p {
      TotalWithout(scope - {q}, p);
      TotalWithout(scope - {p}, q);
      assert scope - {q} - {p} == scope - {p} - {q};
    }
  }

  lemma TotalWith(scope: Scope, e: Entry)
    requires e.path !in scope
    ensures TotalSize(scope[e.path := e]) == TotalSize(scope) + e.size
  {
    var after := scope[e.path := e];
    TotalWithout(after, e.path);
    assert after - {e.path} == scope;
  }

  lemma {:induction false} TotalOfListing(es: seq<Entry>)
    requires DistinctPaths(es)
    ensures TotalSize(ScopeOf(es)) == Sizes(es)
  {
    if es != [] {
      ScopeTail(es);
      TotalWith(ScopeOf(es[1..]), es[0]);
      TotalOfListing(es[1..]);
    }
  }

  // ----- one save

  /** `k` is the length of the shortest prefix of `es` whose eviction brings the
      total, with `saved` bytes on top, within the limit. */
  ghost predicate ShortestEviction(es: seq<Entry>, saved: nat, limit: nat, k: nat)
  {
    && k <= |es|
    && Sizes(es[k..]) + saved <= limit
    && (forall j :: 0 <= j < k ==> Sizes(es[j..]) + saved > limit)
  }

  ghost predicate SavesBy(limit: nat, scope: Scope, e: Entry, after: Scope, es: seq<Entry>, k: nat)
  {
    && Lists(es, scope)
    && ShortestEviction(es, e.size, limit, k)
    && after == ScopeOf(es[k..])[e.path := e]
  }

  /** What saving `e` does to a scope under a limit. */
  ghost predicate SaveStep(limit: nat, scope: Scope, e: Entry, after: Scope)
  {
    if e.path in scope || e.size > limit then after == scope
    else exists es, k: nat :: SavesBy(limit, scope, e, after, es, k)
  }

  lemma InTail(es: seq<Entry>, k: nat, p: string)
    requires DistinctPaths(es) && k <= |es|
    ensures p in ScopeOf(es[k..]) ==> p in ScopeOf(es)
  {
    ScopeHas(es, p);
    ScopeHas(es[k..], p);
    if p in ScopeOf(es[k..]) {
      var i :| 0 <= i < |es[k..]| && es[k..][i].path == p;
      assert es[k + i].path == p;
    }
  }

  /** A save keeps the scope within the limit, and keeps the new entry; one of a new
      entry that fits also brings a scope within it that was not. */
  lemma SaveWithinLimit(limit: nat, scope: Scope, e: Entry, after: Scope)
    requires SaveStep(limit, scope, e, after)
    ensures TotalSize(scope) <= limit || (e.path !in scope && e.size <= limit) ==> TotalSize(after) <= limit
    ensures e.path !in scope && e.size <= limit ==> e.path in after && after[e.path] == e
  {
    if e.path !in scope && e.size <= limit {
      var es: seq<Entry>, k: nat :| SavesBy(limit, scope, e, after, es, k);
      InTail(es, k, e.path);
      TotalOfListing(es[k..]);
      TotalWith(ScopeOf(es[k..]), e);
    }
  }

  /** Listed before `k`: evicted; listed from `k` on: kept. */
  lemma KeptIff(es: seq<Entry>, k: nat, i: nat)
    requires DistinctPaths(es) && k <= |es| && i < |es|
    ensures es[i].path in ScopeOf(es[k..]) <==> i >= k
  {
    ScopeHas(es[k..], es[i].path);
    if i >= k { assert es[k..][i - k].path == es[i].path; }
    if es[i].path in ScopeOf(es[k..]) {
      var j :| 0 <= j < |es[k..]| && es[k..][j].path == es[i].path;
      assert es[k + j].path == es[i].path;
    }
  }

  /** Of the entries that were there, every evicted one comes before every kept
      one in the order of eviction. */
  lemma OldestGoFirst(limit: nat, scope: Scope, e: Entry, after: Scope, gone: string, kept: string)
    requires SaveStep(limit, scope, e, after)
    requires gone in scope && gone !in after
    requires kept in scope && kept in after
    ensures Before(scope[gone], scope[kept])
  {
    var es: seq<Entry>, k: nat :| SavesBy(limit, scope, e, after, es, k);
    ScopeHas(es, gone);
    ScopeHas(es, kept);
    var i :| 0 <= i < |es| && es[i].path == gone;
    var j :| 0 <= j < |es| && es[j].path == kept;
    KeptIff(es, k, i);
    KeptIff(es, k, j);
    ScopeAt(es, i);
    ScopeAt(es, j);
  }

  /** No more is evicted than needed: with room for it the entry is just added,
      and otherwise the scope would be over the limit without the last eviction. */
  lemma EvictsOnlyWhatIsNeeded(limit: nat, scope: Scope, e: Entry, after: Scope)
    requires SaveStep(limit, scope, e, after)
    requires e.path !in scope && e.size <= limit
    ensures TotalSize(scope) + e.size <= limit ==> after == scope[e.path := e]
    ensures TotalSize(scope) + e.size > limit ==>
              exists last :: last in scope && last !in after
                             && TotalSize(after) + scope[last].size > limit
  {
    var es: seq<Entry>, k: nat :| SavesBy(limit, scope, e, after, es, k);
    TotalOfListing(es);
    assert es[0..] == es;
    if k > 0 { LastEviction(limit, scope, e, after, es, k); }
  }

  lemma LastEviction(limit: nat, scope: Scope, e: Entry, after: Scope, es: seq<Entry>, k: nat)
    requires e.path !in scope && k > 0
    requires SavesBy(limit, scope, e, after, es, k)
    ensures var last := es[k - 1].path;
            last in scope && last !in after && TotalSize(after) + scope[last].size > limit
  {
    KeptIff(es, k, k - 1);
    ScopeAt(es, k - 1);
    InTail(es, k, e.path);
    TotalOfListing(es[k..]);
    TotalWith(ScopeOf(es[k..]), e);
    SizesTail(es, k - 1);
    assert Sizes(es[k - 1..]) + e.size > limit;
  }

  // ----- whole runs

  /** Over every sequence of saves under one limit, starting within it, the scope
      stays within the limit. */
  lemma {:induction false} RunWithinLimit(limit: nat, scopes: seq<Scope>, saves: seq<Entry>)
    requires |scopes| == |saves| + 1
    requires TotalSize(scopes[0]) <= limit
    requires forall i :: 0 <= i < |saves| ==> SaveStep(limit, scopes[i], saves[i], scopes[i + 1])
    ensures TotalSize(scopes[|saves|]) <= limit
    decreases |saves|
  {
    if saves != [] {
      var n := |saves| - 1;
      RunWithinLimit(limit, scopes[..n + 1], saves[..n]);
      SaveWithinLimit(limit, scopes[n], saves[n], scopes[n + 1]);
    }
  }

  // ----- the evictor

  /** What a save reports about the quota. */
  datatype Decision = AlreadySaved | NoQuota | WithinQuota | EvictedOthers(used: nat) | EvictedSaved

  class CacheScope {
    var entries: Scope

    constructor (entries: Scope)
      ensures this.entries == entries
    {
      this.entries := entries;
    }

    /** `save_actions_cache_paths` with `apply_actions_cache_quota`; without a
        limit nothing is ever evicted. */
    method Save(e: Entry, limit: Option<nat>) returns (r: Decision)
      requires WellKeyed(entries)
      modifies this
      ensures WellKeyed(entries)
      ensures r.AlreadySaved? <==> e.path in old(entries)
      ensures r.EvictedSaved? <==> e.path !in old(entries) && limit.Some? && e.size > limit.value
      ensures r.WithinQuota? ==> entries == old(entries)[e.path := e]
      ensures r.EvictedOthers? ==> limit.Some? && r.used == TotalSize(entries) <= limit.value
      ensures limit.Some? ==> SaveStep(limit.value, old(entries), e, entries)
      ensures limit.None? ==> entries == if e.path in old(entries) then old(entries) else old(entries)[e.path := e]
    {
      if e.path in entries {
        return AlreadySaved;
      }
      if limit.None? {
        entries := entries[e.path := e];
        return NoQuota;
      }
      if e.size > limit.value {
        return EvictedSaved;
      }
      var used, evicted := Enforce(e, limit.value);
      r := if evicted > 0 then EvictedOthers(used) else WithinQuota;
    }

    /** `enforce_actions_cache_scope_quota`. */
    method Enforce(e: Entry, limit: nat) returns (used: nat, evicted: nat)
      requires WellKeyed(entries) && e.path !in entries && e.size <= limit
      modifies this
      ensures WellKeyed(entries)
      ensures used == TotalSize(entries) <= limit
      ensures evicted == 0 ==> entries == old(entries)[e.path := e]
      ensures SaveStep(limit, old(entries), e, entries)
    {
      var es := QuotaEntries(entries);
      ghost var scope := entries;
      var others := SumSizes(es);
      used := others + e.size;
      evicted := 0;
      assert es[0..] == es;
      while evicted < |es| && used > limit
        invariant 0 <= evicted <= |es|
        invariant entries == ScopeOf(es[evicted..])
        invariant used == Sizes(es[evicted..]) + e.size
        invariant forall j :: 0 <= j < evicted ==> Sizes(es[j..]) + e.size > limit
      {
        SizesTail(es, evicted);
        ScopeTail(es[evicted..]);
        assert es[evicted..][1..] == es[evicted + 1..];
        entries := entries - {es[evicted].path};
        used := used - es[evicted].size;
        evicted := evicted + 1;
      }
      KeyedTail(es, evicted);
      InTail(es, evicted, e.path);
      TotalOfListing(es[evicted..]);
      TotalWith(entries, e);
      entries := entries[e.path := e];
      assert SavesBy(limit, scope, e, entries, es, evicted);
    }
  }

  lemma {:induction false} KeyedTail(es: seq<Entry>, k: nat)
    requires DistinctPaths(es) && k <= |es|
    ensures WellKeyed(ScopeOf(es[k..]))
  {
    forall p | p in ScopeOf(es[k..])
      ensures ScopeOf(es[k..])[p].path == p
    {
      ScopeHas(es[k..], p);
      var i :| 0 <= i < |es[k..]| && es[k..][i].path == p;
      ScopeAt(es[k..], i);
    }
  }

  lemma SizesTail(es: seq<Entry>, i: nat)
    requires i < |es|
    ensures Sizes(es[i..]) == es[i].size + Sizes(es[i + 1..])
  {
    assert es[i..][1..] == es[i + 1..];
  }

  method SumSizes(es: seq<Entry>) returns (sum: nat)
    ensures sum == Sizes(es)
  {
    sum := 0;
    var i := |es|;
    while i > 0
      invariant 0 <= i <= |es|
      invariant sum == Sizes(es[i..])
    {
      i := i - 1;
      SizesTail(es, i);
      sum := sum + es[i].size;
    }
    assert es[0..] == es;
  }

  lemma BeforeTotal(a: Entry, b: Entry)
    requires a.path != b.path
    ensures Before(a, b) || Before(b, a)
  {
    LessTotal(a.path, b.path);
  }

  lemma BeforeTransitive(a: Entry, b: Entry, c: Entry)
    requires Before(a, b) && Before(b, c)
    ensures Before(a, c)
  {
    if a.modified == b.modified == c.modified { LessTransitive(a.path, b.path, c.path); }
  }

  /** `actions_cache_quota_entries`: the entries in the order of eviction. */
  method QuotaEntries(scope: Scope) returns (es: seq<Entry>)
    requires WellKeyed(scope)
    ensures Lists(es, scope)
  {
    es := [];
    var remaining := scope.Keys;
    while remaining != {}
      invariant remaining <= scope.Keys
      invariant Lists(es, scope - remaining)
      decreases |remaining|
    {
      var p :| p in remaining;
      ghost var listed := scope - remaining;
      var i := PlaceFor(es, scope[p]);
      InsertSorted(es, i, scope[p]);
      InsertListed(es, i, scope[p]);
      es := es[..i] + [scope[p]] + es[i..];
      remaining := remaining - {p};
      assert scope - remaining == listed[p := scope[p]];
    }
    assert scope - remaining == scope;
  }

  method PlaceFor(es: seq<Entry>, e: Entry) returns (i: nat)
    requires Sorted(es) && DistinctPaths(es) && e.path !in ScopeOf(es)
    ensures i <= |es|
    ensures forall j :: 0 <= j < i ==> Before(es[j], e)
    ensures forall j :: i <= j < |es| ==> Before(e, es[j])
  {
    ScopeHas(es, e.path);
    i := 0;
    while i < |es| && Before(es[i], e)
      invariant 0 <= i <= |es|
      invariant forall j :: 0 <= j < i ==> Before(es[j], e)
    {
      i := i + 1;
    }
    if i < |es| {
      BeforeTotal(es[i], e);
      forall j | i < j < |es|
        ensures Before(e, es[j])
      {
        BeforeTransitive(e, es[i], es[j]);
      }
    }
  }

  lemma InsertSorted(es: seq<Entry>, i: nat, e: Entry)
    requires Sorted(es) && i <= |es|
    requires forall j :: 0 <= j < i ==> Before(es[j], e)
    requires forall j :: i <= j < |es| ==> Before(e, es[j])
    ensures Sorted(es[..i] + [e] + es[i..])
  {
  }

  lemma InsertDistinct(es: seq<Entry>, i: nat, e: Entry)
    requires DistinctPaths(es) && i <= |es|
    requires forall j :: 0 <= j < |es| ==> es[j].path != e.path
    ensures DistinctPaths(es[..i] + [e] + es[i..])
  {
  }

  lemma {:induction false} InsertListed(es: seq<Entry>, i: nat, e: Entry)
    requires DistinctPaths(es) && e.path !in ScopeOf(es) && i <= |es|
    ensures DistinctPaths(es[..i] + [e] + es[i..])
    ensures ScopeOf(es[..i] + [e] + es[i..]) == ScopeOf(es)[e.path := e]
  {
    ScopeHas(es, e.path);
    InsertDistinct(es, i, e);
    ScopeInsert(es[..i], e, es[i..]);
    assert es[..i] + es[i..] == es;
  }
}
