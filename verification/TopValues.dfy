/** The top-value counters of one domain: pages, referrers and so on. */
module TopValues {
  import opened Basics
  import opened AccessLog
  import opened BoundedCounters
  import opened MapSums

  type Field = f: nat | f < 12

  const PAGES: Field := 0
  const REFERRERS: Field := 1
  const COUNTRIES: Field := 2
  const DEVICES: Field := 3
  const USER_AGENTS: Field := 4
  const UTM_SOURCES: Field := 5
  const UTM_MEDIUMS: Field := 6
  const UTM_CAMPAIGNS: Field := 7
  const UTM_TERMS: Field := 8
  const UTM_CONTENTS: Field := 9
  const CACHE_STATUSES: Field := 10
  const COMPRESSION_ALGORITHMS: Field := 11

  /** The counters of a bucket, one per field. */
  datatype TopData = TopData(caps: seq<nat>, counts: seq<Counts>)

  predicate TwelveCaps(caps: seq<nat>) { |caps| == 12 && forall i :: 0 <= i < 12 ==> caps[i] >= 1 }

  type Tops = t: TopData | TwelveCaps(t.caps) && |t.counts| == 12 witness NoTops(seq(12, _ => 1))

  datatype Config = Config(maxTopPages: nat, maxTopReferrers: nat, maxTopCountries: nat, maxTopUserAgents: nat,
                           uniqueVisitorBits: nat)

  function Caps(c: Config): (caps: seq<nat>)
    ensures TwelveCaps(caps)
  {
    [Max(c.maxTopPages, 1), Max(c.maxTopReferrers, 1), Max(c.maxTopCountries, 1), 5, Max(c.maxTopUserAgents, 1),
     50, 20, 50, 25, 25, 8, 8]
  }

  function NoTops(caps: seq<nat>): (t: TopData)
    requires TwelveCaps(caps)
    ensures |t.counts| == 12 && t.caps == caps && forall i :: 0 <= i < 12 ==> t.counts[i] == map[]
  {
    TopData(caps, seq(12, _ => map[]))
  }

  datatype Label = Label(field: Field, value: string)

  function UtmField(key: string): Option<Field>
  {
    if key == "utm_source" then Some(UTM_SOURCES)
    else if key == "utm_medium" then Some(UTM_MEDIUMS)
    else if key == "utm_campaign" then Some(UTM_CAMPAIGNS)
    else if key == "utm_term" then Some(UTM_TERMS)
    else if key == "utm_content" then Some(UTM_CONTENTS)
    else None
  }

  function UtmLabels(utm: seq<(string, string)>): seq<Label>
    decreases |utm|
  {
    if utm == [] then []
    else
      var n := |utm| - 1;
      var field := UtmField(utm[n].0);
      UtmLabels(utm[..n]) + if field.Some? then [Label(field.value, utm[n].1)] else []
  }

  function PlainLabels(e: Entry): seq<Label>
  {
    [Label(PAGES, e.path), Label(REFERRERS, e.referrer), Label(COUNTRIES, e.country), Label(DEVICES, e.device),
     Label(USER_AGENTS, e.userAgentFamily)]
  }

  /** What an entry adds to the counters, in order. */
  function LabelsOf(e: Entry): seq<Label>
  {
    PlainLabels(e) + UtmLabels(e.utm)
    + [Label(CACHE_STATUSES, e.cacheStatus), Label(COMPRESSION_ALGORITHMS, e.compression)]
  }

  function Labelled(t: Tops, l: Label): Tops
  {
    t.(counts := t.counts[l.field := Added(t.caps[l.field], t.counts[l.field], l.value)])
  }

  function LabelledAll(t: Tops, labels: seq<Label>): (r: Tops)
    ensures r.caps == t.caps
    decreases |labels|
  {
    if labels == [] then t else Labelled(LabelledAll(t, labels[..|labels| - 1]), labels[|labels| - 1])
  }

  lemma {:induction false} LabelledConcat(t: Tops, a: seq<Label>, b: seq<Label>)
    ensures LabelledAll(t, a + b) == LabelledAll(LabelledAll(t, a), b)
    decreases |b|
  {
    if b == [] {
      assert a + b == a;
    } else {
      var n := |b| - 1;
      assert (a + b)[..|a + b| - 1] == a + b[..n];
      LabelledConcat(t, a, b[..n]);
    }
  }

  /** The values added for one field. */
  function ValuesFor(labels: seq<Label>, f: Field): (r: seq<string>)
    ensures |r| <= |labels|
    decreases |labels|
  {
    if labels == [] then []
    else
      var l := labels[|labels| - 1];
      ValuesFor(labels[..|labels| - 1], f) + if l.field == f then [l.value] else []
  }

  /** Each counter is the bounded counter of the values of its field. */
  lemma {:induction false} LabelledReplays(caps: seq<nat>, labels: seq<Label>, f: Field)
    requires TwelveCaps(caps)
    ensures LabelledAll(NoTops(caps), labels).counts[f] == Replay(caps[f], ValuesFor(labels, f))
    decreases |labels|
  {
    if labels != [] {
      var n := |labels| - 1;
      LabelledReplays(caps, labels[..n], f);
      var values := ValuesFor(labels[..n], f);
      ReplaySnoc(caps[f], values, labels[n].value);
      assert values + [] == values;
    }
  }

  /** The twelve counters, updated in place. */
  class TopCounters {
    const counters: seq<BoundedCounter>

    ghost predicate Valid()
      reads this, counters
    {
      && |counters| == 12
      && (forall i, j :: 0 <= i < j < 12 ==> counters[i] != counters[j])
      && (forall i :: 0 <= i < 12 ==> counters[i].Valid())
    }

    ghost function Contents(): TopData
      requires Valid()
      reads this, counters
      ensures TwelveCaps(Contents().caps) && |Contents().counts| == 12
    {
      TopData(seq(12, i requires 0 <= i < 12 reads this, counters => counters[i].cap),
              seq(12, i requires 0 <= i < 12 reads this, counters => counters[i].counts))
    }

    constructor (caps: seq<nat>)
      requires TwelveCaps(caps)
      ensures Valid() && fresh(counters) && Contents() == NoTops(caps)
    {
      var made: seq<BoundedCounter> := [];
      for i := 0 to 12
        invariant |made| == i
        invariant forall j :: 0 <= j < i ==> fresh(made[j]) && made[j].Valid() && made[j].cap == caps[j] && made[j].history == []
        invariant forall j, k :: 0 <= j < k < i ==> made[j] != made[k]
      {
        var counter := new BoundedCounter(caps[i]);
        made := made + [counter];
      }
      counters := made;
    }

    method AddLabel(l: Label)
      requires Valid()
      modifies counters[l.field]
      ensures Valid() && Contents() == Labelled(old(Contents()), l)
    {
      counters[l.field].Add(l.value);
    }

    method AddPlain(labels: seq<Label>)
      requires Valid()
      modifies counters
      ensures Valid() && Contents() == LabelledAll(old(Contents()), labels)
    {
      for i := 0 to |labels|
        invariant Valid() && Contents() == LabelledAll(old(Contents()), labels[..i])
      {
        assert labels[..i + 1][..i] == labels[..i];
        AddLabel(labels[i]);
      }
      assert labels[..|labels|] == labels;
    }

    method AddUtm(utm: seq<(string, string)>)
      requires Valid()
      modifies counters
      ensures Valid() && Contents() == LabelledAll(old(Contents()), UtmLabels(utm))
    {
      for i := 0 to |utm|
        invariant Valid() && Contents() == LabelledAll(old(Contents()), UtmLabels(utm[..i]))
      {
        assert utm[..i + 1][..i] == utm[..i];
        var field := UtmField(utm[i].0);
        if field.Some? {
          LabelledConcat(old(Contents()), UtmLabels(utm[..i]), [Label(field.value, utm[i].1)]);
          LabelledOne(Contents(), Label(field.value, utm[i].1));
          AddLabel(Label(field.value, utm[i].1));
        } else {
          assert UtmLabels(utm[..i]) + [] == UtmLabels(utm[..i]);
        }
      }
      assert utm[..|utm|] == utm;
    }

    method RecordLabels(e: Entry)
      requires Valid()
      modifies counters
      ensures Valid() && Contents() == LabelledAll(old(Contents()), LabelsOf(e))
    {
      AddPlain(PlainLabels(e));
      AddUtm(e.utm);
      ghost var start, last := old(Contents()), [Label(CACHE_STATUSES, e.cacheStatus), Label(COMPRESSION_ALGORITHMS, e.compression)];
      LabelledConcat(start, PlainLabels(e), UtmLabels(e.utm));
      LabelledConcat(start, PlainLabels(e) + UtmLabels(e.utm), last);
      AddPlain([Label(CACHE_STATUSES, e.cacheStatus), Label(COMPRESSION_ALGORITHMS, e.compression)]);
    }
  }

  lemma LabelledOne(t: Tops, l: Label)
    ensures LabelledAll(t, [l]) == Labelled(t, l)
  {
    assert [l][..0] == [];
  }

  // ----- over a history

  /** Everything the entries of a history add. */
  function AllLabels(history: seq<Entry>): seq<Label>
    decreases |history|
  {
    if history == [] then [] else AllLabels(history[..|history| - 1]) + LabelsOf(history[|history| - 1])
  }

  function TopsOf(caps: seq<nat>, history: seq<Entry>): (t: Tops)
    requires TwelveCaps(caps)
    ensures t.caps == caps
    decreases |history|
  {
    if history == [] then NoTops(caps)
    else LabelledAll(TopsOf(caps, history[..|history| - 1]), LabelsOf(history[|history| - 1]))
  }

  lemma {:induction false} TopsAreLabels(caps: seq<nat>, history: seq<Entry>)
    requires TwelveCaps(caps)
    ensures TopsOf(caps, history) == LabelledAll(NoTops(caps), AllLabels(history))
    decreases |history|
  {
    if history != [] {
      var n := |history| - 1;
      TopsAreLabels(caps, history[..n]);
      LabelledConcat(NoTops(caps), AllLabels(history[..n]), LabelsOf(history[n]));
    }
  }

  /** Each counter of a domain is the bounded counter of that field of its entries:
      within its cap, exact if and only if the field took no more values than that, and
      with retained and evicted counts that add up to the values recorded. */
  lemma TopsCount(caps: seq<nat>, history: seq<Entry>, f: Field)
    requires TwelveCaps(caps) && |AllLabels(history)| <= U64_MAX
    ensures var counts, values := TopsOf(caps, history).counts[f], ValuesFor(AllLabels(history), f);
            && counts == Replay(caps[f], values)
            && |counts| <= caps[f]
            && (Exact(counts, values) <==> |Values(values)| <= caps[f])
            && Total(counts) + EvictedTotal(caps[f], values) == NonEmpty(values)
  {
    var values := ValuesFor(AllLabels(history), f);
    TopsAreLabels(caps, history);
    LabelledReplays(caps, AllLabels(history), f);
    ReplayWithinCap(caps[f], values);
    ExactIff(caps[f], values);
    CountsConserved(caps[f], values);
  }
}
