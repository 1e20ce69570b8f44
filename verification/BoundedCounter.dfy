/** Sums over the values of a map. */
module MapSums {

  ghost function Total<K(!new)>(m: map<K, nat>): nat
    decreases |m|
  {
    if m == map[] then 0 else var k :| k in m; m[k] + Total(m - {k})
  }

  lemma {:induction false} TotalSplit<K(!new)>(m: map<K, nat>, k: K)
    requires k in m
    ensures Total(m) == m[k] + Total(m - {k})
    decreases |m|
  {
    var j :| j in m && Total(m) == m[j] + Total(m - {j});
    if j != k {
      TotalSplit(m - {j}, k);
      TotalSplit(m - {k}, j);
      assert m - {j} - {k} == m - {k} - {j};
    }
  }

  lemma TotalInsert<K(!new)>(m: map<K, nat>, k: K, v: nat)
    ensures Total(m[k := v]) + (if k in m then m[k] else 0) == Total(m) + v
  {
    TotalSplit(m[k := v], k);
    assert m[k := v] - {k} == m - {k};
    if k in m { TotalSplit(m, k); } else { assert m - {k} == m; }
  }
}

/** The bounded "top values" counter of the access-log analytics, against the
    exact history of the values added. */
module BoundedCounters {
  import opened Basics
  import opened MapSums
  import opened Order

  type Counts = map<string, nat>

  /** The order in which counters are given up: lowest count first, and among
      equal counts the greatest key first. */
  predicate Colder(counts: Counts, a: string, b: string)
    requires a in counts && b in counts
  {
    counts[a] < counts[b] || (counts[a] == counts[b] && Less(b, a))
  }

  predicate IsColdest(counts: Counts, k: string)
  {
    k in counts && forall l :: l in counts && l != k ==> Colder(counts, k, l)
  }

  lemma ColderTransitive(counts: Counts, a: string, b: string, c: string)
    requires a in counts && b in counts && c in counts
    requires Colder(counts, a, b) && Colder(counts, b, c)
    ensures Colder(counts, a, c)
  {
    if counts[a] == counts[b] == counts[c] { LessTransitive(c, b, a); }
  }

  lemma ColdestUnique(counts: Counts, a: string, b: string)
    requires IsColdest(counts, a) && IsColdest(counts, b)
    ensures a == b
  {
    if a != b && counts[a] == counts[b] {
      LessTransitive(a, b, a);
      LessIrreflexive(a);
    }
  }

  /** The unique coldest counter. */
  method Coldest(counts: Counts) returns (coldest: string)
    requires counts != map[]
    ensures IsColdest(counts, coldest)
    ensures forall k :: IsColdest(counts, k) ==> k == coldest
  {
    var todo := counts.Keys;
    coldest :| coldest in todo;
    todo := todo - {coldest};
    while todo != {}
      invariant todo <= counts.Keys && coldest in counts && coldest !in todo
      invariant forall k :: k in counts && k !in todo && k != coldest ==> Colder(counts, coldest, k)
      decreases |todo|
    {
      var k :| k in todo;
      LessTotal(coldest, k);
      todo := todo - {k};
      if Colder(counts, k, coldest) {
        forall l | l in counts && l !in todo && l != k ensures Colder(counts, k, l) {
          if l != coldest { ColderTransitive(counts, k, coldest, l); }
        }
        coldest := k;
      }
    }
    forall k | IsColdest(counts, k) ensures k == coldest { ColdestUnique(counts, k, coldest); }
  }

  lemma {:induction false} ColdestExists(counts: Counts)
    requires counts != map[]
    ensures exists k :: IsColdest(counts, k)
    decreases |counts|
  {
    var k :| k in counts;
    var rest := counts - {k};
    assert forall l :: l in counts && l != k ==> l in rest;
    if rest == map[] {
      assert IsColdest(counts, k);
    } else {
      ColdestExists(rest);
      var c :| IsColdest(rest, c);
      LessTotal(c, k);
      if Colder(counts, k, c) {
        forall l | l in counts && l != k ensures Colder(counts, k, l) {
          if l != c { assert Colder(rest, c, l); ColderTransitive(counts, k, c, l); }
        }
        assert IsColdest(counts, k);
      } else {
        forall l | l in counts && l != c ensures Colder(counts, c, l) {
          if l != k { assert Colder(rest, c, l); }
        }
        assert IsColdest(counts, c);
      }
    }
  }

  function ColdestOf(counts: Counts): (k: string)
    requires counts != map[]
    ensures IsColdest(counts, k)
  {
    ColdestExists(counts);
    OneColdest(counts);
    var k :| k in counts && IsColdest(counts, k); k
  }

  lemma OneColdest(counts: Counts)
    ensures forall a, b :: IsColdest(counts, a) && IsColdest(counts, b) ==> a == b
  {
    forall a, b | IsColdest(counts, a) && IsColdest(counts, b) ensures a == b { ColdestUnique(counts, a, b); }
  }

  // ----- the history of a counter

  predicate Evicts(cap: nat, counts: Counts, value: string)
  {
    value != "" && value !in counts && |counts| >= cap
  }

  function Added(cap: nat, counts: Counts, value: string): Counts
    requires cap >= 1
  {
    if value == "" then counts
    else if value in counts then counts[value := SaturatingSucc(counts[value])]
    else if |counts| < cap then counts[value := 1]
    else (counts - {ColdestOf(counts)})[value := 1]
  }

  function Replay(cap: nat, history: seq<string>): Counts
    requires cap >= 1
    decreases |history|
  {
    if history == [] then map[] else Added(cap, Replay(cap, history[..|history| - 1]), history[|history| - 1])
  }

  lemma ReplaySnoc(cap: nat, history: seq<string>, value: string)
    requires cap >= 1
    ensures Replay(cap, history + [value]) == Added(cap, Replay(cap, history), value)
  {
    assert (history + [value])[..|history|] == history;
  }

  /** The count an add gives up. */
  ghost function Evicted(cap: nat, counts: Counts, value: string): nat
    requires cap >= 1
  {
    if Evicts(cap, counts, value) then counts[ColdestOf(counts)] else 0
  }

  /** What evictions have thrown away. */
  ghost function EvictedTotal(cap: nat, history: seq<string>): nat
    requires cap >= 1
    decreases |history|
  {
    if history == [] then 0
    else
      var before := Replay(cap, history[..|history| - 1]);
      EvictedTotal(cap, history[..|history| - 1])
      + Evicted(cap, before, history[|history| - 1])
  }

  function Occurrences(history: seq<string>, value: string): nat
    decreases |history|
  {
    if history == [] then 0
    else Occurrences(history[..|history| - 1], value) + if history[|history| - 1] == value then 1 else 0
  }

  function NonEmpty(history: seq<string>): nat
    decreases |history|
  {
    if history == [] then 0 else NonEmpty(history[..|history| - 1]) + if history[|history| - 1] != "" then 1 else 0
  }

  lemma AddedSize(cap: nat, counts: Counts, value: string)
    requires cap >= 1 && |counts| <= cap && "" !in counts
    ensures |Added(cap, counts, value)| <= cap && "" !in Added(cap, counts, value)
  {
    var after := Added(cap, counts, value);
    if value == "" {
    } else if value in counts {
      assert after.Keys == counts.Keys;
      assert |after.Keys| == |counts.Keys|;
    } else if |counts| < cap {
      assert after.Keys == counts.Keys + {value};
      assert |after.Keys| == |counts.Keys| + 1;
    } else {
      assert after.Keys == counts.Keys - {ColdestOf(counts)} + {value};
      assert |after.Keys| == |counts.Keys|;
    }
  }

  /** A counter never holds more than its cap. */
  lemma {:induction false} ReplayWithinCap(cap: nat, history: seq<string>)
    requires cap >= 1
    ensures |Replay(cap, history)| <= cap && "" !in Replay(cap, history)
    decreases |history|
  {
    if history != [] {
      var n := |history| - 1;
      ReplayWithinCap(cap, history[..n]);
      AddedSize(cap, Replay(cap, history[..n]), history[n]);
    }
  }

  /** An eviction gives up one counter, of lowest count, and touches no other. */
  lemma EvictsMinimum(cap: nat, counts: Counts, value: string)
    requires cap >= 1 && |counts| <= cap && Evicts(cap, counts, value)
    ensures exists k :: k in counts
              && Added(cap, counts, value) == (counts - {k})[value := 1]
              && (forall l :: l in counts ==> counts[k] <= counts[l])
              && (forall l :: l in counts && counts[l] == counts[k] && l != k ==> Less(l, k))
  {
    var k := ColdestOf(counts);
    assert forall l :: l in counts && l != k ==> Colder(counts, k, l);
  }

  // ----- retained counts

  /** `value` was inserted by `history[i]` and has been held ever since. */
  ghost predicate HeldSince(cap: nat, history: seq<string>, value: string, i: nat)
    requires cap >= 1
  {
    && i < |history|
    && history[i] == value
    && value !in Replay(cap, history[..i])
    && forall j :: i < j <= |history| ==> value in Replay(cap, history[..j])
  }

  lemma OccurrencesSnoc(history: seq<string>, value: string, i: nat)
    requires i < |history|
    ensures var n := |history| - 1;
            Occurrences(history[i..], value)
            == (if i < n then Occurrences(history[..n][i..], value) else 0) + if history[n] == value then 1 else 0
  {
    var n := |history| - 1;
    assert history[i..][..|history[i..]| - 1] == history[..n][i..];
    assert history[i..][|history[i..]| - 1] == history[n];
  }

  lemma HeldSinceSnoc(cap: nat, history: seq<string>, value: string, i: nat)
    requires cap >= 1 && history != [] && HeldSince(cap, history[..|history| - 1], value, i)
    requires value in Replay(cap, history)
    ensures HeldSince(cap, history, value, i)
  {
    var init := history[..|history| - 1];
    assert forall j :: 0 <= j <= |init| ==> init[..j] == history[..j];
    assert history[..|history|] == history;
    forall j | i < j <= |history| ensures value in Replay(cap, history[..j]) {
      if j < |history| { assert init[..j] == history[..j]; }
    }
  }

  /** Every retained count is the number of times its value was added since it was
      last inserted, that insertion included. */
  lemma {:induction false} RetainedCount(cap: nat, history: seq<string>, value: string) returns (i: nat)
    requires cap >= 1 && |history| <= U64_MAX && value in Replay(cap, history)
    ensures HeldSince(cap, history, value, i)
    ensures Replay(cap, history)[value] == Occurrences(history[i..], value)
    ensures Replay(cap, history)[value] <= |history|
    decreases |history|
  {
    var n := |history| - 1;
    var before := Replay(cap, history[..n]);
    ReplayWithinCap(cap, history);
    if value in before {
      i := RetainedCount(cap, history[..n], value);
      HeldSinceSnoc(cap, history, value, i);
    } else {
      i := n;
      assert history[..n + 1] == history;
    }
    OccurrencesSnoc(history, value, i);
  }

  // ----- conservation

  lemma AddedTotal(cap: nat, counts: Counts, value: string)
    requires cap >= 1 && forall k :: k in counts ==> counts[k] < U64_MAX
    ensures Total(Added(cap, counts, value)) + Evicted(cap, counts, value)
            == Total(counts) + (if value == "" then 0 else 1)
  {
    if value != "" {
      if Evicts(cap, counts, value) {
        ReplacedTotal(counts, ColdestOf(counts), value);
      } else {
        TotalInsert(counts, value, if value in counts then counts[value] + 1 else 1);
      }
    }
  }

  lemma ReplacedTotal(counts: Counts, k: string, value: string)
    requires k in counts && value !in counts
    ensures Total((counts - {k})[value := 1]) + counts[k] == Total(counts) + 1
  {
    TotalSplit(counts, k);
    TotalInsert(counts - {k}, value, 1);
  }

  /** Retained and evicted counts together are the non-empty values added. */
  lemma {:induction false} CountsConserved(cap: nat, history: seq<string>)
    requires cap >= 1 && |history| <= U64_MAX
    ensures Total(Replay(cap, history)) + EvictedTotal(cap, history) == NonEmpty(history)
    decreases |history|
  {
    if history != [] {
      var n := |history| - 1;
      CountsConserved(cap, history[..n]);
      var before := Replay(cap, history[..n]);
      forall k | k in before ensures before[k] < U64_MAX {
        var i := RetainedCount(cap, history[..n], k);
      }
      AddedTotal(cap, before, history[n]);
    }
  }

  // ----- exactness

  /** The distinct non-empty values of a history. */
  function Values(history: seq<string>): (r: set<string>)
    ensures "" !in r
    decreases |history|
  {
    if history == [] then {}
    else
      var v := history[|history| - 1];
      Values(history[..|history| - 1]) + if v == "" then {} else {v}
  }

  ghost predicate Exact(counts: Counts, history: seq<string>)
  {
    counts.Keys == Values(history) && forall v :: v in counts ==> counts[v] == Occurrences(history, v)
  }

  lemma {:induction false} AbsentHasNone(history: seq<string>, v: string)
    requires v != "" && v !in Values(history)
    ensures Occurrences(history, v) == 0
    decreases |history|
  {
    if history != [] { AbsentHasNone(history[..|history| - 1], v); }
  }

  lemma {:induction false} OccurrencesBounded(history: seq<string>, v: string)
    ensures Occurrences(history, v) <= |history|
    decreases |history|
  {
    if history != [] { OccurrencesBounded(history[..|history| - 1], v); }
  }

  lemma {:induction false} FewIsExact(cap: nat, history: seq<string>)
    requires cap >= 1 && |history| <= U64_MAX && |Values(history)| <= cap
    ensures Exact(Replay(cap, history), history)
    decreases |history|
  {
    if history != [] {
      var n := |history| - 1;
      var init, v := history[..n], history[n];
      assert history == init + [v];
      SubsetSize(Values(init), Values(history));
      FewIsExact(cap, init);
      FewStep(cap, init, v);
    }
  }

  lemma FewStep(cap: nat, init: seq<string>, v: string)
    requires cap >= 1 && |init| < U64_MAX && |Values(init + [v])| <= cap && Exact(Replay(cap, init), init)
    ensures Exact(Replay(cap, init + [v]), init + [v])
  {
    ReplaySnoc(cap, init, v);
    NoEviction(cap, Replay(cap, init), init, v);
    ExactStep(cap, Replay(cap, init), init, v);
  }

  /** With room for all values so far, and for the new one, nothing is evicted. */
  lemma NoEviction(cap: nat, before: Counts, init: seq<string>, v: string)
    requires Exact(before, init) && |Values(init + [v])| <= cap
    ensures !Evicts(cap, before, v)
  {
    assert (init + [v])[..|init|] == init;
    assert |before| == |before.Keys|;
    if v != "" && v !in before { assert Values(init + [v]) == Values(init) + {v}; }
  }

  lemma ExactStep(cap: nat, before: Counts, init: seq<string>, v: string)
    requires cap >= 1 && |init| < U64_MAX && Exact(before, init) && !Evicts(cap, before, v)
    ensures Exact(Added(cap, before, v), init + [v])
  {
    assert (init + [v])[..|init|] == init;
    if v != "" {
      OccurrencesBounded(init, v);
      if v !in Values(init) { AbsentHasNone(init, v); }
      ExactInsert(before, init, v);
    }
  }

  lemma ExactInsert(before: Counts, init: seq<string>, v: string)
    requires Exact(before, init) && v != ""
    ensures Exact(before[v := Occurrences(init, v) + 1], init + [v])
  {
    assert (init + [v])[..|init|] == init;
  }

  lemma {:induction false} SubsetSize(a: set<string>, b: set<string>)
    requires a <= b
    ensures |a| <= |b|
    decreases |a|
  {
    if a != {} {
      var x :| x in a;
      SubsetSize(a - {x}, b - {x});
    }
  }

  /** The counter is exact if and only if at most `cap` distinct values occurred. */
  lemma ExactIff(cap: nat, history: seq<string>)
    requires cap >= 1 && |history| <= U64_MAX
    ensures Exact(Replay(cap, history), history) <==> |Values(history)| <= cap
  {
    var counts := Replay(cap, history);
    ReplayWithinCap(cap, history);
    assert |counts| == |counts.Keys|;
    assert Exact(counts, history) ==> counts.Keys == Values(history);
    if |Values(history)| <= cap { FewIsExact(cap, history); }
  }

  // ----- the counter

  class BoundedCounter {
    const cap: nat
    var counts: Counts
    ghost var history: seq<string>

    ghost predicate Valid()
      reads this
    {
      cap >= 1 && counts == Replay(cap, history)
    }

    constructor (cap: nat)
      ensures Valid() && this.cap == Max(cap, 1) && history == []
    {
      this.cap := Max(cap, 1);
      counts, history := map[], [];
    }

    method Add(value: string)
      requires Valid()
      modifies this
      ensures Valid() && history == old(history) + [value]
      ensures counts == Added(cap, old(counts), value)
    {
      ReplayWithinCap(cap, history);
      assert (history + [value])[..|history|] == history;
      history := history + [value];
      if value == "" {
        return;
      }
      if value in counts {
        counts := counts[value := SaturatingSucc(counts[value])];
        return;
      }
      if |counts| < cap {
        counts := counts[value := 1];
        return;
      }
      var coldest := Coldest(counts);
      counts := counts - {coldest};
      counts := counts[value := 1];
    }
  }
}
