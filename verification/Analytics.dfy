/** The access-log collector: a bounded set of domain buckets and two diagnostic
    counters, against the exact history of the lines since the last reset. */
module Analytics {
  import opened Basics
  import opened AccessLog
  import opened DomainTallies
  import opened MapSums
  import opened Order
  import opened TopValues

  const MAX_LOG_LINE_BYTES: nat := 64 * 1024

  // ----- what the collector holds after a history of lines

  /** A line as the collector sees it: its entry, or `None` when malformed. */
  function Reading(parse: seq<byte> -> Option<Entry>, line: seq<byte>): Option<Entry>
  {
    if line == [] || |line| > MAX_LOG_LINE_BYTES || parse(line) == None || parse(line).value.domain == ""
    then None else parse(line)
  }

  datatype Ledger = Ledger(entries: map<string, seq<Entry>>, malformed: nat, dropped: nat)

  /** The entry added to its domain's, which start empty. */
  function WithEntry(entries: map<string, seq<Entry>>, e: Entry): map<string, seq<Entry>>
  {
    entries[e.domain := (if e.domain in entries then entries[e.domain] else []) + [e]]
  }

  function Entered(cap: nat, l: Ledger, reading: Option<Entry>): Ledger
  {
    match reading
    case None => l.(malformed := l.malformed + 1)
    case Some(e) =>
      if e.domain !in l.entries && |l.entries| >= cap then l.(dropped := l.dropped + 1)
      else l.(entries := WithEntry(l.entries, e))
  }

  function LedgerOf(cap: nat, lines: seq<Option<Entry>>): Ledger
    decreases |lines|
  {
    if lines == [] then Ledger(map[], 0, 0) else Entered(cap, LedgerOf(cap, lines[..|lines| - 1]), lines[|lines| - 1])
  }

  lemma LedgerSnoc(cap: nat, lines: seq<Option<Entry>>, reading: Option<Entry>)
    ensures LedgerOf(cap, lines + [reading]) == Entered(cap, LedgerOf(cap, lines), reading)
  {
    assert (lines + [reading])[..|lines|] == lines;
  }

  /** The entries of one domain, in order. */
  function OfDomain(lines: seq<Option<Entry>>, domain: string): (r: seq<Entry>)
    ensures |r| <= |lines|
    decreases |lines|
  {
    if lines == [] then []
    else
      var line := lines[|lines| - 1];
      OfDomain(lines[..|lines| - 1], domain)
      + if line.Some? && line.value.domain == domain then [line.value] else []
  }

  ghost function Lengths(entries: map<string, seq<Entry>>): map<string, nat> { map d | d in entries :: |entries[d]| }

  lemma EnteredConserves(cap: nat, l: Ledger, reading: Option<Entry>)
    ensures var l' := Entered(cap, l, reading);
            Total(Lengths(l'.entries)) + l'.malformed + l'.dropped
            == Total(Lengths(l.entries)) + l.malformed + l.dropped + 1
  {
    var l' := Entered(cap, l, reading);
    if reading.Some? && (reading.value.domain in l.entries || |l.entries| < cap) {
      var d := reading.value.domain;
      TotalInsert(Lengths(l.entries), d, |l'.entries[d]|);
      LengthsUpdate(l.entries, d, l'.entries[d]);
    }
  }

  lemma LengthsUpdate(entries: map<string, seq<Entry>>, d: string, history: seq<Entry>)
    ensures Lengths(entries[d := history]) == Lengths(entries)[d := |history|]
  {
  }

  lemma EnteredWithinCap(cap: nat, l: Ledger, reading: Option<Entry>)
    requires |l.entries| <= cap
    ensures |Entered(cap, l, reading).entries| <= cap
  {
    var l' := Entered(cap, l, reading);
    assert |l'.entries| == |l'.entries.Keys| && |l.entries| == |l.entries.Keys|;
    if reading.Some? {
      var d := reading.value.domain;
      if d in l.entries {
        assert l'.entries.Keys == l.entries.Keys;
      } else if |l.entries| < cap {
        assert l'.entries.Keys == l.entries.Keys + {d};
      }
    }
  }

  /** Every line since the last reset is a page view of one domain, malformed, or
      dropped, and the domains stay within the cap. */
  lemma {:induction false} LinesConserved(cap: nat, lines: seq<Option<Entry>>)
    ensures var l := LedgerOf(cap, lines);
            Total(Lengths(l.entries)) + l.malformed + l.dropped == |lines| && |l.entries| <= cap
    decreases |lines|
  {
    if lines != [] {
      var n := |lines| - 1;
      LinesConserved(cap, lines[..n]);
      EnteredConserves(cap, LedgerOf(cap, lines[..n]), lines[n]);
      EnteredWithinCap(cap, LedgerOf(cap, lines[..n]), lines[n]);
    }
  }

  lemma FullStaysFull(cap: nat, l: Ledger, reading: Option<Entry>)
    requires |l.entries| >= cap
    ensures |Entered(cap, l, reading).entries| >= cap
  {
    var l' := Entered(cap, l, reading);
    assert |l'.entries| == |l'.entries.Keys| && |l.entries| == |l.entries.Keys|;
    assert l'.entries.Keys == l.entries.Keys;
  }

  /** A domain is kept with all of its lines or not at all, and one that was seen
      is left out only by a full collector. */
  lemma {:induction false} DomainsWhole(cap: nat, lines: seq<Option<Entry>>, domain: string)
    ensures var l := LedgerOf(cap, lines);
            && (domain in l.entries ==> l.entries[domain] == OfDomain(lines, domain) != [])
            && (domain !in l.entries ==> OfDomain(lines, domain) == [] || |l.entries| >= cap)
    decreases |lines|
  {
    if lines != [] {
      var n := |lines| - 1;
      DomainsWhole(cap, lines[..n], domain);
      var before := LedgerOf(cap, lines[..n]);
      if |before.entries| >= cap { FullStaysFull(cap, before, lines[n]); }
    }
  }

  // ----- buckets

  /** A bucket after a history: `record` applied to each entry in turn. */
  function Fold<B>(record: (B, Entry) -> B, empty: B, history: seq<Entry>): B
    decreases |history|
  {
    if history == [] then empty
    else record(Fold(record, empty, history[..|history| - 1]), history[|history| - 1])
  }

  function BucketsOf<B>(record: (B, Entry) -> B, empty: B, entries: map<string, seq<Entry>>): map<string, B>
  {
    map d | d in entries :: Fold(record, empty, entries[d])
  }

  function Updated<B>(record: (B, Entry) -> B, empty: B, domains: map<string, B>, e: Entry): map<string, B>
  {
    domains[e.domain := record(if e.domain in domains then domains[e.domain] else empty, e)]
  }

  /** Recording into one bucket keeps every bucket the fold of its own entries. */
  lemma UpdatedIsFold<B>(record: (B, Entry) -> B, empty: B, entries: map<string, seq<Entry>>, e: Entry)
    ensures Updated(record, empty, BucketsOf(record, empty, entries), e)
            == BucketsOf(record, empty, WithEntry(entries, e))
  {
    var history := if e.domain in entries then entries[e.domain] else [];
    FoldSnoc(record, empty, history, e);
    BucketsUpdate(record, empty, entries, e.domain, history + [e]);
  }

  lemma FoldSnoc<B>(record: (B, Entry) -> B, empty: B, history: seq<Entry>, e: Entry)
    ensures Fold(record, empty, history + [e]) == record(Fold(record, empty, history), e)
  {
    assert (history + [e])[..|history|] == history;
  }

  lemma BucketsUpdate<B>(record: (B, Entry) -> B, empty: B, entries: map<string, seq<Entry>>, d: string,
                         history: seq<Entry>)
    ensures BucketsOf(record, empty, entries[d := history])
            == BucketsOf(record, empty, entries)[d := Fold(record, empty, history)]
  {
  }

  lemma {:induction false} FoldIsTally(c: Config, history: seq<Entry>)
    ensures Fold(Recorded, NoTally(c), history) == TallyOf(c, history)
    decreases |history|
  {
    if history != [] { FoldIsTally(c, history[..|history| - 1]); }
  }

  lemma SameSize<K, A, B>(a: map<K, A>, b: map<K, B>)
    requires a.Keys == b.Keys
    ensures |a| == |b|
  {
    assert |a| == |a.Keys| && |b| == |b.Keys|;
  }

  // ----- snapshots in order

  function MapOf<B>(s: seq<(string, B)>): map<string, B>
  {
    if s == [] then map[] else MapOf(s[1..])[s[0].0 := s[0].1]
  }

  ghost predicate Sorted<B>(s: seq<(string, B)>)
  {
    forall i, j :: 0 <= i < j < |s| ==> Less(s[i].0, s[j].0)
  }

  lemma {:induction false} MapOfInsert<B>(a: seq<(string, B)>, x: (string, B), b: seq<(string, B)>)
    requires forall i :: 0 <= i < |a| ==> a[i].0 != x.0
    ensures MapOf(a + [x] + b) == MapOf(a + b)[x.0 := x.1]
  {
    if a == [] {
      assert a + [x] + b == [x] + b && a + b == b;
      MapOfCons(x, b);
    } else {
      var y, rest := a[0], a[1..];
      assert a + [x] + b == [y] + (rest + [x] + b) && a + b == [y] + (rest + b);
      MapOfInsert(rest, x, b);
      MapOfCons(y, rest + [x] + b);
      MapOfCons(y, rest + b);
      UpdatesCommute(MapOf(rest + b), x.0, x.1, y.0, y.1);
    }
  }

  lemma MapOfCons<B>(x: (string, B), s: seq<(string, B)>)
    ensures MapOf([x] + s) == MapOf(s)[x.0 := x.1]
  {
    assert ([x] + s)[1..] == s;
  }

  lemma UpdatesCommute<B>(m: map<string, B>, k: string, v: B, l: string, w: B)
    requires k != l
    ensures m[k := v][l := w] == m[l := w][k := v]
  {
  }

  lemma {:induction false} MapOfKeys<B>(s: seq<(string, B)>, i: nat)
    requires i < |s|
    ensures s[i].0 in MapOf(s)
  {
    if i > 0 { MapOfKeys(s[1..], i - 1); }
  }

  lemma InsertSorted<B>(s: seq<(string, B)>, i: nat, x: (string, B))
    requires Sorted(s) && i <= |s|
    requires (forall j :: 0 <= j < i ==> Less(s[j].0, x.0)) && forall j :: i <= j < |s| ==> Less(x.0, s[j].0)
    ensures Sorted(s[..i] + [x] + s[i..])
  {
  }

  method PlaceFor<B>(s: seq<(string, B)>, d: string) returns (i: nat)
    requires Sorted(s) && d !in MapOf(s)
    ensures i <= |s|
    ensures (forall j :: 0 <= j < i ==> Less(s[j].0, d)) && forall j :: i <= j < |s| ==> Less(d, s[j].0)
  {
    i := 0;
    while i < |s| && Less(s[i].0, d)
      invariant 0 <= i <= |s|
      invariant forall j :: 0 <= j < i ==> Less(s[j].0, d)
    {
      i := i + 1;
    }
    if i < |s| {
      MapOfKeys(s, i);
      LessTotal(s[i].0, d);
      forall j | i < j < |s| ensures Less(d, s[j].0) { LessTransitive(d, s[i].0, s[j].0); }
    }
  }

  /** One snapshot per domain, in the order of the names. */
  method InOrder<B>(domains: map<string, B>) returns (s: seq<(string, B)>)
    ensures Sorted(s) && MapOf(s) == domains
  {
    s := [];
    var todo := domains.Keys;
    while todo != {}
      invariant todo <= domains.Keys && Sorted(s) && MapOf(s) == domains - todo
      decreases |todo|
    {
      var d :| d in todo;
      s := PutInOrder(s, d, domains[d]);
      PutBack(domains, todo, d);
      todo := todo - {d};
    }
    assert domains - todo == domains;
  }

  method PutInOrder<B>(s: seq<(string, B)>, d: string, b: B) returns (r: seq<(string, B)>)
    requires Sorted(s) && d !in MapOf(s)
    ensures Sorted(r) && MapOf(r) == MapOf(s)[d := b]
  {
    var i := PlaceFor(s, d);
    forall j | 0 <= j < i ensures s[..i][j].0 != d { LessIrreflexive(d); }
    MapOfInsert(s[..i], (d, b), s[i..]);
    assert s[..i] + s[i..] == s;
    InsertSorted(s, i, (d, b));
    r := s[..i] + [(d, b)] + s[i..];
  }

  lemma PutBack<B>(m: map<string, B>, todo: set<string>, d: string)
    requires d in todo && todo <= m.Keys
    ensures (m - todo)[d := m[d]] == m - (todo - {d})
  {
  }

  // ----- the collector

  datatype Diagnostics = Diagnostics(malformedLines: nat, droppedDomains: nat)

  /** The buckets are owned by the map, so they are values here; `empty` and
      `record` are those of `DomainBucket`. */
  class Collector<B(0)> {
    const maxDomains: nat
    const empty: B
    const record: (B, Entry) -> B
    const parse: seq<byte> -> Option<Entry>
    var domains: map<string, B>
    var diagnostics: Diagnostics
    ghost var lines: seq<Option<Entry>>

    ghost predicate Valid()
      reads this
    {
      var l := LedgerOf(maxDomains, lines);
      && maxDomains >= 1
      && |lines| <= U64_MAX
      && domains == BucketsOf(record, empty, l.entries)
      && diagnostics == Diagnostics(l.malformed, l.dropped)
    }

    constructor (maxDomains: nat, empty: B, record: (B, Entry) -> B, parse: seq<byte> -> Option<Entry>)
      ensures Valid() && lines == [] && domains == map[]
      ensures this.maxDomains == Max(maxDomains, 1)
      ensures this.empty == empty && this.record == record && this.parse == parse
    {
      this.maxDomains := Max(maxDomains, 1);
      this.empty, this.record, this.parse := empty, record, parse;
      domains, diagnostics, lines := map[], Diagnostics(0, 0), [];
    }

    method RecordMalformed()
      requires Valid() && |lines| < U64_MAX
      modifies this`diagnostics, this`lines
      ensures Valid() && lines == old(lines) + [None]
    {
      LinesConserved(maxDomains, lines);
      LedgerSnoc(maxDomains, lines, None);
      diagnostics := diagnostics.(malformedLines := SaturatingSucc(diagnostics.malformedLines));
      lines := lines + [None];
    }

    method RecordLine(line: seq<byte>)
      requires Valid() && |lines| < U64_MAX
      modifies this
      ensures Valid() && lines == old(lines) + [Reading(parse, line)]
    {
      if line == [] || |line| > MAX_LOG_LINE_BYTES {
        RecordMalformed();
        return;
      }
      var parsed := parse(line);
      if parsed.None? || parsed.value.domain == "" {
        RecordMalformed();
        return;
      }
      RecordEntry(parsed.value);
    }

    method RecordInBucket(entry: Entry, ghost entries: map<string, seq<Entry>>)
      requires domains == BucketsOf(record, empty, entries)
      modifies this`domains
      ensures domains == BucketsOf(record, empty, WithEntry(entries, entry))
    {
      UpdatedIsFold(record, empty, entries, entry);
      ghost var before := domains;
      if entry.domain !in domains {
        domains := domains[entry.domain := empty];
      }
      domains := domains[entry.domain := record(domains[entry.domain], entry)];
      assert domains == Updated(record, empty, before, entry);
    }

    method RecordEntry(entry: Entry)
      requires Valid() && |lines| < U64_MAX
      modifies this
      ensures Valid() && lines == old(lines) + [Some(entry)]
    {
      ghost var l := LedgerOf(maxDomains, lines);
      LinesConserved(maxDomains, lines);
      LedgerSnoc(maxDomains, lines, Some(entry));
      SameSize(domains, l.entries);
      lines := lines + [Some(entry)];
      if entry.domain !in domains && |domains| >= maxDomains {
        diagnostics := diagnostics.(droppedDomains := SaturatingSucc(diagnostics.droppedDomains));
        return;
      }
      RecordInBucket(entry, l.entries);
    }

    /** Hands out what was collected and starts over. */
    method CollectAndReset() returns (snapshots: seq<(string, B)>, collected: Diagnostics)
      requires Valid()
      modifies this
      ensures Valid() && lines == [] && domains == map[]
      ensures Sorted(snapshots) && Drained(MapOf(snapshots), collected, maxDomains, record, empty, old(lines))
    {
      snapshots := InOrder(domains);
      collected := diagnostics;
      domains, diagnostics, lines := map[], Diagnostics(0, 0), [];
    }
  }

  /** The buckets and diagnostics of all lines since the last reset. */
  ghost predicate Drained<B>(buckets: map<string, B>, collected: Diagnostics, cap: nat,
                             record: (B, Entry) -> B, empty: B, lines: seq<Option<Entry>>)
  {
    var l := LedgerOf(cap, lines);
    buckets == BucketsOf(record, empty, l.entries) && collected == Diagnostics(l.malformed, l.dropped)
  }

  ghost function PageViews(buckets: map<string, Tally>): map<string, nat>
  {
    map d | d in buckets :: buckets[d].views.pages
  }

  lemma SameViews(buckets: map<string, Tally>, entries: map<string, seq<Entry>>)
    requires buckets.Keys == entries.Keys
    requires forall d :: d in buckets ==> buckets[d].views.pages == |entries[d]|
    ensures PageViews(buckets) == Lengths(entries)
  {
  }

  lemma DomainTally(cap: nat, c: Config, lines: seq<Option<Entry>>, d: string)
    requires |lines| <= U64_MAX && d in LedgerOf(cap, lines).entries
    ensures var history := LedgerOf(cap, lines).entries[d];
            var t := Fold(Recorded, NoTally(c), history);
            t == TallyOf(c, OfDomain(lines, d)) && t.views.pages == |history|
  {
    var history := LedgerOf(cap, lines).entries[d];
    DomainsWhole(cap, lines, d);
    FoldIsTally(c, history);
    ViewsCounted(history);
  }

  /** What is handed out accounts for every line recorded since the last reset:
      page views over all domains, malformed and dropped lines add up to the lines,
      and each domain's tallies are those of exactly its own lines. */
  lemma DrainAccounts(buckets: map<string, Tally>, collected: Diagnostics, cap: nat, c: Config,
                      lines: seq<Option<Entry>>)
    requires |lines| <= U64_MAX && Drained(buckets, collected, cap, Recorded, NoTally(c), lines)
    ensures |buckets| <= cap
    ensures forall d :: d in buckets ==> buckets[d] == TallyOf(c, OfDomain(lines, d))
    ensures Total(PageViews(buckets)) + collected.malformedLines + collected.droppedDomains == |lines|
  {
    var l := LedgerOf(cap, lines);
    LinesConserved(cap, lines);
    SameSize(buckets, l.entries);
    forall d | d in buckets
      ensures buckets[d] == TallyOf(c, OfDomain(lines, d)) && buckets[d].views.pages == |l.entries[d]|
    {
      DomainTally(cap, c, lines, d);
    }
    SameViews(buckets, l.entries);
  }
}
