/** The tallies kept for one domain of the access log, against the exact history
    of its entries. */
module DomainTallies {
  import opened Basics
  import opened AccessLog
  import opened TopValues
  import opened VisitorBits

  // ----- classes

  const LATENCY_BOUNDS: seq<real> := [10.0, 50.0, 100.0, 250.0, 500.0, 1000.0, 2500.0, 5000.0, 10000.0]

  /** The first bucket whose bound is not exceeded, or the unbounded last one. */
  function LatencyBucket(ms: real): (r: nat)
    ensures r < 10
  {
    if ms <= 10.0 then 0
    else if ms <= 50.0 then 1
    else if ms <= 100.0 then 2
    else if ms <= 250.0 then 3
    else if ms <= 500.0 then 4
    else if ms <= 1000.0 then 5
    else if ms <= 2500.0 then 6
    else if ms <= 5000.0 then 7
    else if ms <= 10000.0 then 8
    else 9
  }

  lemma BoundMeans(ms: real, i: nat)
    requires i < |LATENCY_BOUNDS|
    ensures ms <= LATENCY_BOUNDS[i] <==> LatencyBucket(ms) <= i
  {
    assert i in {0, 1, 2, 3, 4, 5, 6, 7, 8};
  }

  method LatencyBucketIndex(ms: real) returns (r: nat)
    ensures r == LatencyBucket(ms)
  {
    for i := 0 to |LATENCY_BOUNDS|
      invariant LatencyBucket(ms) >= i
    {
      BoundMeans(ms, i);
      if ms <= LATENCY_BOUNDS[i] {
        return i;
      }
    }
    return |LATENCY_BOUNDS|;
  }

  function StatusClassIndex(status: int): (r: Option<nat>)
    ensures r.Some? ==> r.value < 5 && status / 100 == r.value + 1
    ensures r.None? ==> status < 100 || status > 599
  {
    if 100 <= status <= 199 then Some(0)
    else if 200 <= status <= 299 then Some(1)
    else if 300 <= status <= 399 then Some(2)
    else if 400 <= status <= 499 then Some(3)
    else if 500 <= status <= 599 then Some(4)
    else None
  }

  // ----- tallies

  datatype Views = Views(pages: nat, human: nat, bot: nat, bytes: nat, timestamp: string)

  datatype ClassCounts = ClassCounts(status: seq<nat>, response: seq<nat>, upstream: seq<nat>)

  type Classes = c: ClassCounts | |c.status| == 5 && |c.response| == 10 && |c.upstream| == 10 witness NoClasses()

  datatype Bitmap = Bitmap(bits: seq<Word>, count: nat)

  type Visitors = b: Bitmap | |b.bits| > 0 witness NoVisitors(1)

  datatype Tally = Tally(views: Views, classes: Classes, visitors: Visitors, tops: Tops)

  function Zeros(n: nat): (s: seq<nat>)
    ensures |s| == n && forall i :: 0 <= i < n ==> s[i] == 0
  {
    seq(n, _ => 0)
  }

  function NoViews(): Views { Views(0, 0, 0, 0, "") }

  function NoClasses(): (c: ClassCounts)
    ensures |c.status| == 5 && |c.response| == 10 && |c.upstream| == 10
  {
    ClassCounts(Zeros(5), Zeros(10), Zeros(10))
  }

  /** The smallest bitmap with the configured number of bits, one word at least. */
  function NoVisitors(uniqueVisitorBits: nat): (b: Bitmap)
    ensures |b.bits| == WordsFor(uniqueVisitorBits)
    ensures uniqueVisitorBits <= 64 * |b.bits|
  {
    Bitmap(seq(WordsFor(uniqueVisitorBits), _ => Zero()), 0)
  }

  function WordsFor(uniqueVisitorBits: nat): (n: nat)
    ensures n > 0
  {
    Max((uniqueVisitorBits + 63) / 64, 1)
  }

  function NoTally(c: Config): Tally
  {
    Tally(NoViews(), NoClasses(), NoVisitors(c.uniqueVisitorBits), NoTops(Caps(c)))
  }

  function Viewed(v: Views, e: Entry): Views
  {
    Views(SaturatingSucc(v.pages),
          if e.isBot then v.human else SaturatingSucc(v.human),
          if e.isBot then SaturatingSucc(v.bot) else v.bot,
          Min(v.bytes + e.bytesSent, U64_MAX),
          e.timestamp)
  }

  function Classed(c: Classes, e: Entry): Classes
  {
    var index := StatusClassIndex(e.status);
    var response, upstream := LatencyBucket(e.responseMs), LatencyBucket(e.upstreamMs);
    ClassCounts(
      if index.None? then c.status else c.status[index.value := SaturatingSucc(c.status[index.value])],
      c.response[response := c.response[response] + 1],
      if e.upstreamMs > 0.0 then c.upstream[upstream := c.upstream[upstream] + 1] else c.upstream)
  }

  function Visited(b: Visitors, f: Fingerprint): (r: Visitors)
    ensures |r.bits| == |b.bits|
  {
    if f == [] then b
    else
      var p := Position(f, |b.bits|);
      if IsSet(b.bits, p) then b else Bitmap(Marked(b.bits, p), b.count + 1)
  }

  function Recorded(t: Tally, e: Entry): Tally
  {
    Tally(Viewed(t.views, e), Classed(t.classes, e), Visited(t.visitors, e.fingerprint), LabelledAll(t.tops, LabelsOf(e)))
  }

  /** The counters and bitmap of one domain, updated in place. */
  class DomainBucket {
    var pageViews: nat
    var humanViews: nat
    var botViews: nat
    var bytesSent: nat
    var timestamp: string
    var statusClasses: seq<nat>
    var responseLatency: seq<nat>
    var upstreamLatency: seq<nat>
    var uniqueBits: seq<Word>
    var uniqueBitCount: nat
    const tops: TopCounters

    ghost predicate Shaped()
      reads this`statusClasses, this`responseLatency, this`upstreamLatency, this`uniqueBits
    {
      |statusClasses| == 5 && |responseLatency| == 10 && |upstreamLatency| == 10 && |uniqueBits| > 0
    }

    ghost predicate Valid()
      reads this, tops, tops.counters
    {
      Shaped() && tops.Valid()
    }

    ghost function ViewsNow(): Views
      reads this`pageViews, this`humanViews, this`botViews, this`bytesSent, this`timestamp
    {
      Views(pageViews, humanViews, botViews, bytesSent, timestamp)
    }

    ghost function ClassesNow(): Classes
      requires Shaped()
      reads this`statusClasses, this`responseLatency, this`upstreamLatency, this`uniqueBits
    {
      ClassCounts(statusClasses, responseLatency, upstreamLatency)
    }

    ghost function VisitorsNow(): Visitors
      requires Shaped()
      reads this`statusClasses, this`responseLatency, this`upstreamLatency, this`uniqueBits, this`uniqueBitCount
    {
      Bitmap(uniqueBits, uniqueBitCount)
    }

    ghost function Contents(): Tally
      requires Valid()
      reads this, tops, tops.counters
    {
      Tally(ViewsNow(), ClassesNow(), VisitorsNow(), tops.Contents())
    }

    constructor (c: Config)
      ensures Valid() && fresh(tops) && fresh(tops.counters) && Contents() == NoTally(c)
    {
      pageViews, humanViews, botViews, bytesSent, timestamp := 0, 0, 0, 0, "";
      statusClasses, responseLatency, upstreamLatency := Zeros(5), Zeros(10), Zeros(10);
      uniqueBits, uniqueBitCount := seq(WordsFor(c.uniqueVisitorBits), _ => Zero()), 0;
      tops := new TopCounters(Caps(c));
    }

    method MarkUnique(fingerprint: Fingerprint)
      requires Shaped()
      modifies this`uniqueBits, this`uniqueBitCount
      ensures Shaped() && VisitorsNow() == Visited(old(VisitorsNow()), fingerprint)
    {
      if fingerprint == [] || |uniqueBits| == 0 {
        return;
      }
      var bit := Position(fingerprint, |uniqueBits|);
      var word, mask := bit / 64, Mask(bit % 64);
      MaskTests(uniqueBits[word], bit % 64);
      if And(uniqueBits[word], mask) == Zero() {
        uniqueBits := uniqueBits[word := Or(uniqueBits[word], mask)];
        uniqueBitCount := uniqueBitCount + 1;
      }
    }

    method CountViews(entry: Entry)
      modifies this`pageViews, this`humanViews, this`botViews, this`bytesSent, this`timestamp
      ensures ViewsNow() == Viewed(old(ViewsNow()), entry)
    {
      pageViews := SaturatingSucc(pageViews);
      bytesSent := Min(bytesSent + entry.bytesSent, U64_MAX);
      timestamp := entry.timestamp;
      if entry.isBot {
        botViews := SaturatingSucc(botViews);
      } else {
        humanViews := SaturatingSucc(humanViews);
      }
    }

    method CountClasses(entry: Entry)
      requires Shaped()
      modifies this`statusClasses, this`responseLatency, this`upstreamLatency
      ensures Shaped() && ClassesNow() == Classed(old(ClassesNow()), entry)
    {
      var index := StatusClassIndex(entry.status);
      if index.Some? {
        statusClasses := statusClasses[index.value := SaturatingSucc(statusClasses[index.value])];
      }
      var response := LatencyBucketIndex(entry.responseMs);
      responseLatency := responseLatency[response := responseLatency[response] + 1];
      if entry.upstreamMs > 0.0 {
        var upstream := LatencyBucketIndex(entry.upstreamMs);
        upstreamLatency := upstreamLatency[upstream := upstreamLatency[upstream] + 1];
      }
    }

    /** Views and visitors. */
    method RecordVisit(entry: Entry)
      requires Shaped()
      modifies this`pageViews, this`humanViews, this`botViews, this`bytesSent, this`timestamp,
               this`uniqueBits, this`uniqueBitCount
      ensures Shaped() && ViewsNow() == Viewed(old(ViewsNow()), entry)
      ensures VisitorsNow() == Visited(old(VisitorsNow()), entry.fingerprint)
    {
      CountViews(entry);
      MarkUnique(entry.fingerprint);
    }

    /** Top values and classes. */
    method RecordDetails(entry: Entry)
      requires Valid()
      modifies this`statusClasses, this`responseLatency, this`upstreamLatency, tops.counters
      ensures Valid() && tops.Contents() == LabelledAll(old(tops.Contents()), LabelsOf(entry))
      ensures ClassesNow() == Classed(old(ClassesNow()), entry)
    {
      tops.RecordLabels(entry);
      CountClasses(entry);
    }

    method Record(entry: Entry)
      requires Valid()
      modifies this, tops.counters
      ensures Valid() && Contents() == Recorded(old(Contents()), entry)
    {
      RecordVisit(entry);
      RecordDetails(entry);
    }
  }

  // ----- the tallies of a whole history

  function ViewsOf(history: seq<Entry>): Views
    decreases |history|
  {
    if history == [] then NoViews() else Viewed(ViewsOf(history[..|history| - 1]), history[|history| - 1])
  }

  function ClassesOf(history: seq<Entry>): Classes
    decreases |history|
  {
    if history == [] then NoClasses() else Classed(ClassesOf(history[..|history| - 1]), history[|history| - 1])
  }

  function VisitorsOf(bits: nat, history: seq<Entry>): (r: Visitors)
    ensures |r.bits| == WordsFor(bits)
    decreases |history|
  {
    if history == [] then NoVisitors(bits)
    else Visited(VisitorsOf(bits, history[..|history| - 1]), history[|history| - 1].fingerprint)
  }

  function TallyOf(c: Config, history: seq<Entry>): Tally
  {
    Tally(ViewsOf(history), ClassesOf(history), VisitorsOf(c.uniqueVisitorBits, history), TopsOf(Caps(c), history))
  }

  /** How many entries satisfy `p`. */
  function Matching(history: seq<Entry>, p: Entry -> bool): (n: nat)
    ensures n <= |history|
    decreases |history|
  {
    if history == [] then 0
    else Matching(history[..|history| - 1], p) + if p(history[|history| - 1]) then 1 else 0
  }

  predicate IsBot(e: Entry) { e.isBot }

  function InStatusClass(i: nat): Entry -> bool { (e: Entry) => StatusClassIndex(e.status) == Some(i) }

  function InResponseBucket(i: nat): Entry -> bool { (e: Entry) => LatencyBucket(e.responseMs) == i }

  function InUpstreamBucket(i: nat): Entry -> bool
  {
    (e: Entry) => e.upstreamMs > 0.0 && LatencyBucket(e.upstreamMs) == i
  }

  function SumBytes(history: seq<Entry>): nat
    decreases |history|
  {
    if history == [] then 0 else SumBytes(history[..|history| - 1]) + history[|history| - 1].bytesSent
  }

  /** The positions the visitors of a history hash to. */
  ghost function Positions(history: seq<Entry>, words: nat): (r: set<nat>)
    requires words > 0
    ensures |r| <= |history|
    decreases |history|
  {
    if history == [] then {}
    else
      var f := history[|history| - 1].fingerprint;
      Positions(history[..|history| - 1], words) + if f == [] then {} else {Position(f, words)}
  }

  /** The bitmap holds exactly the positions seen, and the bit count is their number. */
  lemma {:induction false} BitsAreVisitors(bits: nat, history: seq<Entry>)
    ensures var b := VisitorsOf(bits, history);
            SetBits(b.bits) == Positions(history, WordsFor(bits)) && b.count == |SetBits(b.bits)|
    decreases |history|
  {
    if history == [] {
      assert SetBits(NoVisitors(bits).bits) == {};
    } else {
      var n := |history| - 1;
      BitsAreVisitors(bits, history[..n]);
      VisitedBits(VisitorsOf(bits, history[..n]), history[n].fingerprint);
    }
  }

  lemma VisitedBits(b: Visitors, f: Fingerprint)
    requires b.count == |SetBits(b.bits)|
    ensures var b' := Visited(b, f);
            && SetBits(b'.bits) == SetBits(b.bits) + (if f == [] then {} else {Position(f, |b.bits|)})
            && b'.count == |SetBits(b'.bits)|
  {
    if f != [] { MarkSets(b.bits, Position(f, |b.bits|)); }
  }

  /** Views and bytes of a history. */
  lemma {:induction false} ViewsCounted(history: seq<Entry>)
    requires |history| <= U64_MAX
    ensures var v := ViewsOf(history);
            && v.pages == |history| == v.human + v.bot
            && v.bot == Matching(history, IsBot)
            && v.bytes == Min(SumBytes(history), U64_MAX)
            && v.timestamp == (if history == [] then "" else history[|history| - 1].timestamp)
    decreases |history|
  {
    if history != [] { ViewsCounted(history[..|history| - 1]); }
  }

  /** Every class counter is the number of entries in its class. */
  lemma {:induction false} ClassesCounted(history: seq<Entry>, i: nat)
    requires |history| <= U64_MAX
    ensures var c := ClassesOf(history);
            && (i < 5 ==> c.status[i] == Matching(history, InStatusClass(i)))
            && (i < 10 ==> c.response[i] == Matching(history, InResponseBucket(i)))
            && (i < 10 ==> c.upstream[i] == Matching(history, InUpstreamBucket(i)))
    decreases |history|
  {
    if history != [] { ClassesCounted(history[..|history| - 1], i); }
  }

  lemma {:induction false} SumUpdate(counts: seq<nat>, k: nat, v: nat)
    requires k < |counts|
    ensures Sum(counts[k := v]) + counts[k] == Sum(counts) + v
  {
    if k > 0 {
      SumUpdate(counts[1..], k - 1, v);
      assert counts[k := v][1..] == counts[1..][k - 1 := v];
    } else {
      assert counts[k := v][1..] == counts[1..];
    }
  }

  lemma {:induction false} SumZero(counts: seq<nat>)
    requires forall i :: 0 <= i < |counts| ==> counts[i] == 0
    ensures Sum(counts) == 0
  {
    if counts != [] { SumZero(counts[1..]); }
  }

  lemma ClassedSum(c: Classes, e: Entry)
    ensures Sum(Classed(c, e).response) == Sum(c.response) + 1
  {
    var k := LatencyBucket(e.responseMs);
    SumUpdate(c.response, k, c.response[k] + 1);
  }

  /** The response-latency buckets together are all the page views. */
  lemma {:induction false} LatencyBalances(history: seq<Entry>)
    ensures Sum(ClassesOf(history).response) == |history|
    decreases |history|
  {
    if history == [] {
      SumZero(Zeros(10));
    } else {
      var n := |history| - 1;
      LatencyBalances(history[..n]);
      ClassedSum(ClassesOf(history[..n]), history[n]);
    }
  }

  /** The tallies of a domain balance: page views are the human and bot views, are
      the response-latency buckets together, and bound the distinct visitors. */
  lemma TallyBalances(c: Config, history: seq<Entry>)
    requires |history| <= U64_MAX
    ensures var v, k, b := ViewsOf(history), ClassesOf(history), VisitorsOf(c.uniqueVisitorBits, history);
            && v.pages == |history| == v.human + v.bot == Sum(k.response)
            && b.count == |SetBits(b.bits)| == |Positions(history, WordsFor(c.uniqueVisitorBits))| <= v.pages
  {
    ViewsCounted(history);
    LatencyBalances(history);
    BitsAreVisitors(c.uniqueVisitorBits, history);
  }
}
