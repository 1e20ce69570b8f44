/** The log spool as a queue of segments, and the plain FIFO it stands for. */
module SpoolQueue {
  import opened Basics
  import opened SpoolFraming

  datatype Config = Config(maxBytes: nat, maxSegmentBytes: nat)

  datatype Segment = Segment(sequence: nat, payloads: seq<Payload>)

  datatype Queue = Queue(segments: seq<Segment>, nextSequence: nat, droppedRecords: nat, droppedBytes: nat)

  datatype SpoolError = ZeroBudget | RecordTooLarge | AckTooLarge

  /** The records of the segments, oldest first. */
  function Flat(segments: seq<Segment>): seq<Payload>
  {
    if segments == [] then [] else segments[0].payloads + Flat(segments[1..])
  }

  function Contents(q: Queue): seq<Payload> { Flat(q.segments) }

  function Bytes(q: Queue): nat { Size(Contents(q)) }

  ghost predicate ConfigOk(cfg: Config) { 0 < cfg.maxBytes <= U64_MAX }

  ghost predicate Increasing(segments: seq<Segment>)
  {
    forall i, j :: 0 <= i < j < |segments| ==> segments[i].sequence < segments[j].sequence
  }

  /** Numbers below the next one; once that is saturated, the last one may equal it. */
  ghost predicate Below(segments: seq<Segment>, next: nat)
  {
    forall i :: 0 <= i < |segments| ==> segments[i].sequence < next || segments[i].sequence == next == U64_MAX
  }

  /** Live sequence numbers strictly increase and stay below the next one. */
  ghost predicate Ordered(q: Queue)
  {
    && q.nextSequence <= U64_MAX
    && Below(q.segments, q.nextSequence)
    && Increasing(q.segments)
  }

  ghost predicate Valid(cfg: Config, q: Queue)
  {
    && ConfigOk(cfg)
    && Ordered(q)
    && AllFit(Contents(q))
    && Bytes(q) <= cfg.maxBytes
  }

  // ----- operations

  /** The first cut at or after `from` whose tail is within budget. */
  function FirstWithin(cfg: Config, segments: seq<Segment>, from: nat): (k: nat)
    requires from <= |segments|
    ensures from <= k <= |segments|
    ensures Size(Flat(segments[k..])) <= cfg.maxBytes
    ensures forall j :: from <= j < k ==> Size(Flat(segments[j..])) > cfg.maxBytes
    decreases |segments| - from
  {
    if from == |segments| || Size(Flat(segments[from..])) <= cfg.maxBytes then from
    else FirstWithin(cfg, segments, from + 1)
  }

  /** The fewest head segments whose removal brings the rest within budget. */
  function DropCount(cfg: Config, segments: seq<Segment>): nat { FirstWithin(cfg, segments, 0) }

  function DropHead(q: Queue, k: nat): Queue
    requires k <= |q.segments|
  {
    Queue(q.segments[k..], q.nextSequence,
          q.droppedRecords + |Flat(q.segments[..k])|,
          q.droppedBytes + Size(Flat(q.segments[..k])))
  }

  function Enforce(cfg: Config, q: Queue): Queue { DropHead(q, DropCount(cfg, q.segments)) }

  /** The last segment takes the record while it stays within the segment limit;
      a record larger than the limit gets an empty segment of its own. */
  predicate LastHasRoom(cfg: Config, q: Queue, recordBytes: nat)
  {
    q.segments != [] &&
    Size(q.segments[|q.segments| - 1].payloads) + recordBytes <= Max(cfg.maxSegmentBytes, recordBytes)
  }

  /** The record needs a new segment, and the number it would get is in use. */
  predicate Reuses(cfg: Config, q: Queue, recordBytes: nat)
  {
    && q.segments != []
    && !LastHasRoom(cfg, q, recordBytes)
    && q.segments[|q.segments| - 1].sequence == q.nextSequence
  }

  /** Opens an empty segment when the last one has no room. */
  function WithRoom(cfg: Config, q: Queue, recordBytes: nat): (q': Queue)
    ensures q'.segments != []
  {
    if LastHasRoom(cfg, q, recordBytes) then q
    else q.(segments := q.segments + [Segment(q.nextSequence, [])],
            nextSequence := SaturatingSucc(q.nextSequence))
  }

  function GrowLast(q: Queue, p: Payload): Queue
    requires q.segments != []
  {
    var n := |q.segments|;
    var last := q.segments[n - 1];
    q.(segments := q.segments[..n - 1] + [Segment(last.sequence, last.payloads + [p])])
  }

  function Push(cfg: Config, q: Queue, p: Payload): Queue { GrowLast(WithRoom(cfg, q, RecordBytes(p)), p) }

  function Append(cfg: Config, q: Queue, p: Payload): Result<Queue, SpoolError>
  {
    if RecordBytes(p) > cfg.maxBytes then Err(RecordTooLarge)
    else Ok(Enforce(cfg, Push(cfg, q, p)))
  }

  function AckSegments(segments: seq<Segment>, n: nat): seq<Segment>
  {
    if n == 0 || segments == [] then segments
    else if n >= |segments[0].payloads| then AckSegments(segments[1..], n - |segments[0].payloads|)
    else [Segment(segments[0].sequence, segments[0].payloads[n..])] + segments[1..]
  }

  function Ack(q: Queue, n: nat): Result<Queue, SpoolError>
  {
    if n > |Contents(q)| then Err(AckTooLarge)
    else Ok(q.(segments := AckSegments(q.segments, n)))
  }

  /** What a fresh process rebuilds from the segment files. */
  function Load(segments: seq<Segment>): Queue
  {
    Queue(segments,
          if segments == [] then 0 else SaturatingSucc(segments[|segments| - 1].sequence), 0, 0)
  }

  function Reopen(cfg: Config, q: Queue): Queue { Enforce(cfg, Load(q.segments)) }

  function PayloadBytes(ps: seq<Payload>): nat
  {
    if ps == [] then 0 else |ps[0]| + PayloadBytes(ps[1..])
  }

  /** A batch of `n` records is allowed: within both limits, or one record. */
  predicate BatchFits(ps: seq<Payload>, n: nat, maxRecords: nat, maxPayloadBytes: nat)
    requires n <= |ps|
  {
    n <= maxRecords && (n <= 1 || PayloadBytes(ps[..n]) <= maxPayloadBytes)
  }

  ghost predicate LongestBatch(ps: seq<Payload>, n: nat, maxRecords: nat, maxPayloadBytes: nat)
  {
    && n <= |ps|
    && BatchFits(ps, n, maxRecords, maxPayloadBytes)
    && (forall m :: n < m <= |ps| ==> !BatchFits(ps, m, maxRecords, maxPayloadBytes))
  }

  // ----- sequences of segments

  lemma {:induction false} FlatConcat(a: seq<Segment>, b: seq<Segment>)
    ensures Flat(a + b) == Flat(a) + Flat(b)
    ensures Size(Flat(a + b)) == Size(Flat(a)) + Size(Flat(b))
  {
    FlatAppend(a, b);
    EncodeConcat(Flat(a), Flat(b));
  }

  lemma {:induction false} FlatAppend(a: seq<Segment>, b: seq<Segment>)
    ensures Flat(a + b) == Flat(a) + Flat(b)
  {
    if a == [] {
      assert a + b == b;
    } else {
      var x, rest := a[0], a[1..];
      assert a + b == [x] + (rest + b) && a == [x] + rest;
      FlatAppend(rest, b);
      FlatCons(x, rest + b);
      FlatCons(x, rest);
      Regroup(x.payloads, Flat(rest), Flat(b));
    }
  }

  lemma Regroup(a: seq<Payload>, b: seq<Payload>, c: seq<Payload>)
    ensures a + (b + c) == (a + b) + c
  {
  }

  lemma FlatCons(x: Segment, rest: seq<Segment>)
    ensures Flat([x] + rest) == x.payloads + Flat(rest)
  {
    assert ([x] + rest)[1..] == rest;
  }

  lemma {:induction false} FlatSplit(segments: seq<Segment>, k: nat)
    requires k <= |segments|
    ensures Flat(segments) == Flat(segments[..k]) + Flat(segments[k..])
    ensures Size(Flat(segments)) == Size(Flat(segments[..k])) + Size(Flat(segments[k..]))
  {
    var a, b := segments[..k], segments[k..];
    assert segments == a + b;
    FlatConcat(a, b);
  }

  lemma {:induction false} FlatSnoc(init: seq<Segment>, last: Segment)
    ensures Flat(init + [last]) == Flat(init) + last.payloads
  {
    FlatConcat(init, [last]);
    FlatOne(last);
  }

  lemma FlatOne(s: Segment)
    ensures Flat([s]) == s.payloads
  {
    assert Flat([s]) == s.payloads + Flat([]);
  }

  lemma AllFitSlice(ps: seq<Payload>, n: nat)
    requires n <= |ps| && AllFit(ps)
    ensures AllFit(ps[n..]) && AllFit(ps[..n])
  {
  }

  lemma {:induction false} PayloadBytesConcat(a: seq<Payload>, b: seq<Payload>)
    ensures PayloadBytes(a + b) == PayloadBytes(a) + PayloadBytes(b)
  {
    if a == [] {
      assert a + b == b;
    } else {
      assert (a + b)[1..] == a[1..] + b;
      PayloadBytesConcat(a[1..], b);
    }
  }

  // ----- each operation on the FIFO

  /** Budget enforcement removes the records of a whole-segment prefix, counts
      them, and leaves the rest in order and within budget. */
  lemma EnforceRefines(cfg: Config, q: Queue)
    ensures var q' := Enforce(cfg, q);
            && var d := q'.droppedRecords - q.droppedRecords;
            && 0 <= d <= |Contents(q)|
            && Contents(q') == Contents(q)[d..]
            && q'.droppedBytes - q.droppedBytes == Size(Contents(q)[..d])
            && Bytes(q) == Bytes(q') + q'.droppedBytes - q.droppedBytes
            && Bytes(q') <= cfg.maxBytes
    ensures Bytes(q) <= cfg.maxBytes ==> Enforce(cfg, q) == q
    ensures Ordered(q) ==> Ordered(Enforce(cfg, q))
    ensures AllFit(Contents(q)) ==> AllFit(Contents(Enforce(cfg, q)))
  {
    var k := DropCount(cfg, q.segments);
    FlatSplit(q.segments, k);
    var d := |Flat(q.segments[..k])|;
    assert Contents(q)[..d] == Flat(q.segments[..k]);
    assert Contents(q)[d..] == Flat(q.segments[k..]);
    if Bytes(q) <= cfg.maxBytes {
      assert q.segments[0..] == q.segments;
      assert k == 0;
    }
  }

  lemma {:induction false} WithRoomRefines(cfg: Config, q: Queue, recordBytes: nat)
    ensures Contents(WithRoom(cfg, q, recordBytes)) == Contents(q)
  {
    if !LastHasRoom(cfg, q, recordBytes) {
      FlatSnoc(q.segments, Segment(q.nextSequence, []));
    }
  }

  lemma {:induction false} GrowLastContents(q: Queue, p: Payload)
    requires q.segments != []
    ensures Contents(GrowLast(q, p)) == Contents(q) + [p]
  {
    var n := |q.segments|;
    var init, last := q.segments[..n - 1], q.segments[n - 1];
    assert q.segments == init + [last];
    FlatSnoc(init, last);
    FlatSnoc(init, Segment(last.sequence, last.payloads + [p]));
  }

  lemma {:induction false} GrowLastRefines(q: Queue, p: Payload)
    requires q.segments != []
    ensures Contents(GrowLast(q, p)) == Contents(q) + [p]
    ensures Bytes(GrowLast(q, p)) == Bytes(q) + RecordBytes(p)
  {
    GrowLastContents(q, p);
    SizeSnoc(Contents(q), p);
  }

  lemma {:induction false} PushRefines(cfg: Config, q: Queue, p: Payload)
    ensures Contents(Push(cfg, q, p)) == Contents(q) + [p]
    ensures Bytes(Push(cfg, q, p)) == Bytes(q) + RecordBytes(p)
  {
    WithRoomRefines(cfg, q, RecordBytes(p));
    GrowLastRefines(WithRoom(cfg, q, RecordBytes(p)), p);
  }

  /** A push keeps the sequence numbers in order, and distinct, if and only if it
      does not reuse the number of the last segment. */
  lemma PushKeepsOrderIff(cfg: Config, q: Queue, p: Payload)
    requires Ordered(q)
    ensures Increasing(Push(cfg, q, p).segments) <==> !Reuses(cfg, q, RecordBytes(p))
    ensures Ordered(Push(cfg, q, p)) <==> !Reuses(cfg, q, RecordBytes(p))
  {
    if LastHasRoom(cfg, q, RecordBytes(p)) {
      GrowKeepsOrder(q, p);
    } else {
      NewSegmentPush(cfg, q, p);
      NewNumberOrder(q, [p]);
    }
  }

  lemma GrowKeepsOrder(q: Queue, p: Payload)
    requires Ordered(q) && q.segments != []
    ensures Ordered(GrowLast(q, p))
  {
  }

  /** The next number keeps the order if and only if the last segment does not have it. */
  lemma NewNumberOrder(q: Queue, payloads: seq<Payload>)
    requires Ordered(q)
    ensures var after := q.segments + [Segment(q.nextSequence, payloads)];
            && (Increasing(after) <==> q.segments == [] || q.segments[|q.segments| - 1].sequence != q.nextSequence)
            && Below(after, SaturatingSucc(q.nextSequence))
  {
    var n, after := |q.segments|, q.segments + [Segment(q.nextSequence, payloads)];
    if n > 0 {
      assert after[n - 1].sequence == q.segments[n - 1].sequence && after[n].sequence == q.nextSequence;
    }
  }

  lemma NewSegmentPush(cfg: Config, q: Queue, p: Payload)
    requires !LastHasRoom(cfg, q, RecordBytes(p))
    ensures Push(cfg, q, p).segments == q.segments + [Segment(q.nextSequence, [p])]
  {
    assert (q.segments + [Segment(q.nextSequence, [])])[..|q.segments|] == q.segments;
    assert [] + [p] == [p];
  }

  /** Only a saturated counter hands out a number twice. */
  lemma ReusesOnlySaturated(cfg: Config, q: Queue, recordBytes: nat)
    requires Ordered(q) && Reuses(cfg, q, recordBytes)
    ensures q.nextSequence == U64_MAX
    ensures q.segments[|q.segments| - 1].payloads != []
  {
    assert Size([]) == 0;
  }

  lemma AllFitPush(ps: seq<Payload>, p: Payload)
    requires AllFit(ps) && Fits(p)
    ensures AllFit(ps + [p])
  {
  }

  /** Append enqueues at the tail, then drops and counts a prefix. */
  lemma AppendRefines(cfg: Config, q: Queue, p: Payload)
    requires Valid(cfg, q)
    ensures Append(cfg, q, p).Err? <==> RecordBytes(p) > cfg.maxBytes
    ensures Append(cfg, q, p).Ok? ==>
              var q' := Append(cfg, q, p).value;
              && var d := q'.droppedRecords - q.droppedRecords;
              && 0 <= d <= |Contents(q)| + 1
              && Contents(q') == (Contents(q) + [p])[d..]
              && Bytes(q) + RecordBytes(p) == Bytes(q') + q'.droppedBytes - q.droppedBytes
              && q'.nextSequence <= q.nextSequence + 1
    ensures Append(cfg, q, p).Ok? && !Reuses(cfg, q, RecordBytes(p)) ==> Valid(cfg, Append(cfg, q, p).value)
  {
    if RecordBytes(p) <= cfg.maxBytes {
      PushRefines(cfg, q, p);
      EnforceRefines(cfg, Push(cfg, q, p));
      AllFitPush(Contents(q), p);
      PushKeepsOrderIff(cfg, q, p);
    }
  }

  /** The record would join the last segment and make it exceed the budget. */
  predicate OutgrowsBudget(cfg: Config, q: Queue, p: Payload)
  {
    && LastHasRoom(cfg, q, RecordBytes(p))
    && Size(q.segments[|q.segments| - 1].payloads) + RecordBytes(p) > cfg.maxBytes
  }

  /** The segment that took the record, its size and its place at the tail. */
  lemma PushedLast(cfg: Config, q: Queue, p: Payload)
    ensures var segs := Push(cfg, q, p).segments;
            && segs != []
            && var last := segs[|segs| - 1];
            && last.payloads != []
            && last.payloads[|last.payloads| - 1] == p
            && Size(last.payloads) == RecordBytes(p) + (if LastHasRoom(cfg, q, RecordBytes(p))
                                                        then Size(q.segments[|q.segments| - 1].payloads) else 0)
  {
    var room := WithRoom(cfg, q, RecordBytes(p)).segments;
    SizeSnoc(room[|room| - 1].payloads, p);
  }

  /** A tail of the segments that is not empty ends with the last segment. */
  lemma TailEndsWithLast(segs: seq<Segment>, k: nat)
    requires k < |segs|
    ensures Size(Flat(segs[k..])) >= Size(segs[|segs| - 1].payloads)
    ensures segs[|segs| - 1].payloads != [] ==>
              && Flat(segs[k..]) != []
              && Flat(segs[k..])[|Flat(segs[k..])| - 1] ==
                 segs[|segs| - 1].payloads[|segs[|segs| - 1].payloads| - 1]
  {
    var n := |segs|;
    FlatSplit(segs[k..], n - 1 - k);
    assert segs[k..][n - 1 - k..] == [segs[n - 1]];
    FlatOne(segs[n - 1]);
  }

  /** The budget spares the newest record exactly when its segment fits in it. */
  lemma {:induction false} EnforceSparesLast(cfg: Config, q: Queue)
    requires q.segments != []
    requires q.segments[|q.segments| - 1].payloads != []
    ensures var q', last := Enforce(cfg, q), q.segments[|q.segments| - 1].payloads;
            if Size(last) <= cfg.maxBytes
            then Contents(q') != [] && Contents(q')[|Contents(q')| - 1] == last[|last| - 1]
            else Contents(q') == []
  {
    var segs, n := q.segments, |q.segments|;
    assert segs[n - 1..] == [segs[n - 1]];
    FlatOne(segs[n - 1]);
    var k := DropCount(cfg, segs);
    if k < n { TailEndsWithLast(segs, k); }
  }

  /** An accepted append keeps its own record unless the record joined a segment
      that the record made larger than the whole budget; then nothing is kept. */
  lemma {:induction false} NewestSurvivesIff(cfg: Config, q: Queue, p: Payload)
    requires RecordBytes(p) <= cfg.maxBytes
    ensures var c := Contents(Append(cfg, q, p).value);
            if OutgrowsBudget(cfg, q, p) then c == [] else c != [] && c[|c| - 1] == p
  {
    PushedLast(cfg, q, p);
    EnforceSparesLast(cfg, Push(cfg, q, p));
  }

  /** With segments no larger than the budget the newest record always stays. */
  lemma {:induction false} NewestSurvives(cfg: Config, q: Queue, p: Payload)
    requires RecordBytes(p) <= cfg.maxBytes
    requires cfg.maxSegmentBytes <= cfg.maxBytes
    ensures var c := Contents(Append(cfg, q, p).value);
            c != [] && c[|c| - 1] == p
  {
    NewestSurvivesIff(cfg, q, p);
  }

  lemma {:induction false} FirstAppend(cfg: Config, p: Payload)
    requires RecordBytes(p) <= cfg.maxBytes
    ensures var q := Queue([Segment(0, [p])], 1, 0, 0);
            && Append(cfg, Queue([], 0, 0, 0), p) == Ok(q)
            && Contents(q) == [p]
            && Bytes(q) == RecordBytes(p)
  {
    var q0, q := Queue([], 0, 0, 0), Queue([Segment(0, [p])], 1, 0, 0);
    assert WithRoom(cfg, q0, RecordBytes(p)).segments == [Segment(0, [])];
    assert [] + [p] == [p];
    assert Push(cfg, q0, p) == q;
    FlatOne(Segment(0, [p]));
    EncodeOne(p);
    EnforceRefines(cfg, q);
  }

  lemma {:induction false} PairOutgrows(cfg: Config, first: Payload, second: Payload)
    requires ConfigOk(cfg)
    requires RecordBytes(first) <= cfg.maxBytes && RecordBytes(second) <= cfg.maxBytes
    requires cfg.maxBytes < RecordBytes(first) + RecordBytes(second) <= cfg.maxSegmentBytes
    ensures Valid(cfg, Queue([Segment(0, [first])], 1, 0, 0))
    ensures OutgrowsBudget(cfg, Queue([Segment(0, [first])], 1, 0, 0), second)
  {
    FlatOne(Segment(0, [first]));
    EncodeOne(first);
  }

  /** Two records that together exceed the budget but not the segment limit leave
      an empty spool empty. */
  lemma {:induction false} PairLosesTheNewest(cfg: Config, first: Payload, second: Payload)
    requires ConfigOk(cfg)
    requires RecordBytes(first) <= cfg.maxBytes && RecordBytes(second) <= cfg.maxBytes
    requires cfg.maxBytes < RecordBytes(first) + RecordBytes(second) <= cfg.maxSegmentBytes
    ensures Contents(RunQueue(cfg, Queue([], 0, 0, 0), [OpAppend(first), OpAppend(second)])) == []
  {
    FirstAppend(cfg, first);
    PairOutgrows(cfg, first, second);
    NewestSurvivesIff(cfg, Queue([Segment(0, [first])], 1, 0, 0), second);
    RunTwo(cfg, Queue([], 0, 0, 0), OpAppend(first), OpAppend(second));
  }

  /** Some accepted append to some valid spool under this configuration is lost. */
  ghost predicate CanLoseTheNewest(cfg: Config)
  {
    exists q, p :: Valid(cfg, q) && RecordBytes(p) <= cfg.maxBytes && OutgrowsBudget(cfg, q, p)
  }

  lemma {:induction false} SizeAtLeastHeader(ps: seq<Payload>)
    ensures ps != [] ==> Size(ps) >= HEADER_BYTES
  {
  }

  /** Two records of at least a header each must exceed the budget within one
      segment: exactly the configurations that allow it can lose the newest record. */
  lemma {:induction false} LosesTheNewestIff(cfg: Config)
    requires ConfigOk(cfg)
    ensures CanLoseTheNewest(cfg) <==> 8 <= cfg.maxBytes && Max(16, cfg.maxBytes + 1) <= cfg.maxSegmentBytes
  {
    if CanLoseTheNewest(cfg) {
      var q, p :| Valid(cfg, q) && RecordBytes(p) <= cfg.maxBytes && OutgrowsBudget(cfg, q, p);
      var last := q.segments[|q.segments| - 1].payloads;
      assert last != [] by { assert Size([]) == 0; }
      SizeAtLeastHeader(last);
    }
    if 8 <= cfg.maxBytes && Max(16, cfg.maxBytes + 1) <= cfg.maxSegmentBytes {
      var first: Payload := seq(Max(0, cfg.maxBytes - 15), _ => 0);
      PairOutgrows(cfg, first, []);
    }
  }

  /** Without the first `j` of its segments a queue takes a record just the same. */
  lemma {:induction false} PushTail(cfg: Config, q: Queue, p: Payload, j: nat)
    requires j < |q.segments|
    ensures j < |Push(cfg, q, p).segments|
    ensures Flat(Push(cfg, q, p).segments[j..]) == Flat(q.segments[j..]) + [p]
    ensures Size(Flat(Push(cfg, q, p).segments[j..])) == Size(Flat(q.segments[j..])) + RecordBytes(p)
  {
    var tail := q.(segments := q.segments[j..]);
    assert Push(cfg, q, p).segments[j..] == Push(cfg, tail, p).segments;
    PushRefines(cfg, tail, p);
  }

  lemma {:induction false} FlatOnes(segments: seq<Segment>, r: Payload)
    requires |segments| == 3 && forall i :: 0 <= i < 3 ==> segments[i].payloads == [r]
    ensures Flat(segments[2..]) == [r] && Flat(segments[1..]) == [r, r] && Flat(segments) == [r, r, r]
    ensures Size([r]) == RecordBytes(r) && Size([r, r]) == 2 * RecordBytes(r)
  {
    assert segments[2..] == [segments[2]];
    FlatOne(segments[2]);
    assert segments[1..][1..] == segments[2..];
    EncodeOne(r);
    assert [r] + [r] == [r, r];
    SizeSnoc([r], r);
  }

  /** A record that fits beside one of three, but not beside two, drops two. */
  lemma {:induction false} PushDropsTwo(cfg: Config, q: Queue, r: Payload, x: Payload)
    requires Valid(cfg, q) && |q.segments| == 3 && forall i :: 0 <= i < 3 ==> q.segments[i].payloads == [r]
    requires RecordBytes(r) + RecordBytes(x) <= cfg.maxBytes < 2 * RecordBytes(r) + RecordBytes(x)
    ensures var a := Append(cfg, q, x);
            a.Ok? && Contents(a.value) == [r, x] && a.value.droppedRecords == q.droppedRecords + 2
  {
    FlatOnes(q.segments, r);
    var segs := Push(cfg, q, x).segments;
    PushTail(cfg, q, x, 0);
    PushTail(cfg, q, x, 1);
    PushTail(cfg, q, x, 2);
    assert segs[0..] == segs && q.segments[0..] == q.segments;
    PushRefines(cfg, q, x);
    SizeSnoc([r, r], r);
    assert [r, r] + [r] == [r, r, r];
    assert DropCount(cfg, segs) == 2;
    FlatSplit(segs, 2);
    assert [r] + [x] == [r, x];
  }

  lemma {:induction false} AckSegmentsRefines(segments: seq<Segment>, n: nat)
    requires n <= |Flat(segments)|
    ensures Flat(AckSegments(segments, n)) == Flat(segments)[n..]
  {
    if n != 0 && segments != [] {
      var head := segments[0].payloads;
      if n >= |head| {
        AckSegmentsRefines(segments[1..], n - |head|);
      } else {
        var cut := Segment(segments[0].sequence, head[n..]);
        FlatConcat([cut], segments[1..]);
        FlatOne(cut);
      }
    }
  }

  lemma {:induction false} AckSegmentsOrder(segments: seq<Segment>, n: nat, bound: nat)
    requires Increasing(segments) && Below(segments, bound)
    ensures Increasing(AckSegments(segments, n)) && Below(AckSegments(segments, n), bound)
  {
    if n != 0 && segments != [] && n >= |segments[0].payloads| {
      AckSegmentsOrder(segments[1..], n - |segments[0].payloads|, bound);
    }
  }

  /** Ack(n) removes exactly the first n records, or nothing at all. */
  lemma AckRefines(cfg: Config, q: Queue, n: nat)
    requires Valid(cfg, q)
    ensures Ack(q, n).Ok? <==> n <= |Contents(q)|
    ensures n <= |Contents(q)| ==>
              var q' := Ack(q, n).value;
              && Contents(q') == Contents(q)[n..]
              && Bytes(q) == Size(Contents(q)[..n]) + Bytes(q')
              && q'.nextSequence == q.nextSequence
              && q'.droppedRecords == q.droppedRecords
              && q'.droppedBytes == q.droppedBytes
              && Valid(cfg, q')
  {
    if n <= |Contents(q)| {
      AckSegmentsRefines(q.segments, n);
      AckSegmentsOrder(q.segments, n, q.nextSequence);
      EncodeConcat(Contents(q)[..n], Contents(q)[n..]);
      assert Contents(q)[..n] + Contents(q)[n..] == Contents(q);
      AllFitSlice(Contents(q), n);
    }
  }

  /** A restart with the same configuration keeps every segment and record. */
  lemma ReopenKeepsQueue(cfg: Config, q: Queue)
    requires Valid(cfg, q)
    ensures var q' := Reopen(cfg, q);
            && q'.segments == q.segments
            && Contents(q') == Contents(q)
            && q'.nextSequence <= q.nextSequence
            && q'.droppedRecords == q'.droppedBytes == 0
            && Valid(cfg, q')
  {
    EnforceRefines(cfg, Load(q.segments));
  }

  lemma {:induction false} PayloadBytesMonotone(ps: seq<Payload>, n: nat, m: nat)
    requires n <= m <= |ps|
    ensures PayloadBytes(ps[..n]) <= PayloadBytes(ps[..m])
  {
    PayloadBytesConcat(ps[..n], ps[n..m]);
    assert ps[..n] + ps[n..m] == ps[..m];
  }

  /** A batch at which the reader stops is the longest one allowed. */
  lemma StoppedIsLongest(ps: seq<Payload>, n: nat, maxRecords: nat, maxPayloadBytes: nat)
    requires n <= |ps|
    requires BatchFits(ps, n, maxRecords, maxPayloadBytes)
    requires n == |ps| || n == maxRecords || (n >= 1 && PayloadBytes(ps[..n + 1]) > maxPayloadBytes)
    ensures LongestBatch(ps, n, maxRecords, maxPayloadBytes)
  {
    forall m | n < m <= |ps|
      ensures !BatchFits(ps, m, maxRecords, maxPayloadBytes)
    {
      if n != maxRecords { PayloadBytesMonotone(ps, n + 1, m); }
    }
  }

  // ----- whole runs

  datatype Op =
    | OpAppend(payload: Payload)
    | OpAck(count: nat)
    | OpReopen

  /** A queue with what has happened to it: the accepted appends, and how many
      records and bytes left by ack and by the budget. */
  datatype History = History(queue: Queue, accepted: seq<Payload>,
                             acked: int, ackedBytes: int, dropped: int, droppedBytes: int)

  function Start(q: Queue): History { History(q, [], 0, 0, 0, 0) }

  function StepQueue(cfg: Config, q: Queue, op: Op): Queue
  {
    match op
    case OpAppend(p) => (match Append(cfg, q, p) case Ok(q') => q' case Err(_) => q)
    case OpAck(n) => (match Ack(q, n) case Ok(q') => q' case Err(_) => q)
    case OpReopen => Reopen(cfg, q)
  }

  function Step(cfg: Config, h: History, op: Op): History
  {
    var q, q' := h.queue, StepQueue(cfg, h.queue, op);
    match op
    case OpAppend(p) =>
      if Append(cfg, q, p).Err? then h
      else h.(queue := q', accepted := h.accepted + [p],
              dropped := h.dropped + (q'.droppedRecords - q.droppedRecords),
              droppedBytes := h.droppedBytes + (q'.droppedBytes - q.droppedBytes))
    case OpAck(n) =>
      if Ack(q, n).Err? then h
      else h.(queue := q', acked := h.acked + n, ackedBytes := h.ackedBytes + (Bytes(q) - Bytes(q')))
    case OpReopen =>
      h.(queue := q', dropped := h.dropped + q'.droppedRecords,
         droppedBytes := h.droppedBytes + q'.droppedBytes)
  }

  function RunQueue(cfg: Config, q: Queue, ops: seq<Op>): Queue
    decreases |ops|
  {
    if ops == [] then q else StepQueue(cfg, RunQueue(cfg, q, ops[..|ops| - 1]), ops[|ops| - 1])
  }

  lemma RunQueueStep(cfg: Config, q: Queue, ops: seq<Op>, i: nat)
    requires i < |ops|
    ensures RunQueue(cfg, q, ops[..i + 1]) == StepQueue(cfg, RunQueue(cfg, q, ops[..i]), ops[i])
  {
    assert ops[..i + 1][..i] == ops[..i];
  }

  lemma RunTwo(cfg: Config, q: Queue, a: Op, b: Op)
    ensures RunQueue(cfg, q, [a, b]) == StepQueue(cfg, StepQueue(cfg, q, a), b)
  {
    assert [a, b][..1] == [a] && [a][..0] == [];
    assert RunQueue(cfg, q, [a]) == StepQueue(cfg, RunQueue(cfg, q, []), a);
  }

  /** The operation hands out no sequence number twice. */
  predicate Safe(cfg: Config, q: Queue, op: Op)
  {
    op.OpAppend? && RecordBytes(op.payload) <= cfg.maxBytes ==> !Reuses(cfg, q, RecordBytes(op.payload))
  }

  /** No operation of the run does. */
  ghost predicate SafeRun(cfg: Config, q: Queue, ops: seq<Op>)
    decreases |ops|
  {
    ops == [] ||
    (SafeRun(cfg, q, ops[..|ops| - 1]) && Safe(cfg, RunQueue(cfg, q, ops[..|ops| - 1]), ops[|ops| - 1]))
  }

  lemma {:induction false} SafePrefix(cfg: Config, q: Queue, ops: seq<Op>, i: nat)
    requires SafeRun(cfg, q, ops) && i < |ops|
    ensures SafeRun(cfg, q, ops[..i]) && Safe(cfg, RunQueue(cfg, q, ops[..i]), ops[i])
    decreases |ops|
  {
    var n := |ops| - 1;
    if i < n {
      SafePrefix(cfg, q, ops[..n], i);
      assert ops[..n][..i] == ops[..i];
    }
  }

  lemma StepKeepsValid(cfg: Config, q: Queue, op: Op)
    requires Valid(cfg, q)
    requires Safe(cfg, q, op)
    ensures Valid(cfg, StepQueue(cfg, q, op))
    ensures StepQueue(cfg, q, op).nextSequence <= q.nextSequence + 1
  {
    match op
    case OpAppend(p) => AppendRefines(cfg, q, p);
    case OpAck(n) => AckRefines(cfg, q, n);
    case OpReopen => ReopenKeepsQueue(cfg, q);
  }

  /** Every run that hands out no sequence number twice keeps the queue valid:
      ordered segments and bytes within budget after each operation. */
  lemma {:induction false} RunKeepsValid(cfg: Config, q: Queue, ops: seq<Op>)
    requires Valid(cfg, q)
    requires SafeRun(cfg, q, ops)
    ensures Valid(cfg, RunQueue(cfg, q, ops))
    ensures RunQueue(cfg, q, ops).nextSequence <= q.nextSequence + |ops|
    decreases |ops|
  {
    if ops != [] {
      RunKeepsValid(cfg, q, ops[..|ops| - 1]);
      StepKeepsValid(cfg, RunQueue(cfg, q, ops[..|ops| - 1]), ops[|ops| - 1]);
    }
  }

  /** So every run shorter than the sequence numbers left is one of these. */
  lemma {:induction false} RoomIsSafe(cfg: Config, q: Queue, ops: seq<Op>)
    requires Valid(cfg, q)
    requires q.nextSequence + |ops| <= U64_MAX
    ensures SafeRun(cfg, q, ops)
    decreases |ops|
  {
    if ops != [] {
      var init := ops[..|ops| - 1];
      RoomIsSafe(cfg, q, init);
      RunKeepsValid(cfg, q, init);
    }
  }

  function Run(cfg: Config, q: Queue, ops: seq<Op>): (h: History)
    ensures h.queue == RunQueue(cfg, q, ops)
    decreases |ops|
  {
    if ops == [] then Start(q)
    else Step(cfg, Run(cfg, q, ops[..|ops| - 1]), ops[|ops| - 1])
  }

  /** The queue is what is left of the stream of all records ever queued once
      the acked and the dropped ones have left from its head, and the counters
      account for every record and byte of it. */
  ghost predicate IsFifo(initial: seq<Payload>, h: History)
  {
    var stream := initial + h.accepted;
    && 0 <= h.acked && 0 <= h.dropped && h.acked + h.dropped <= |stream|
    && Contents(h.queue) == stream[h.acked + h.dropped..]
    && Size(stream) == Bytes(h.queue) + h.ackedBytes + h.droppedBytes
  }

  lemma SuffixPush(stream: seq<Payload>, p: Payload, gone: nat, d: nat)
    requires gone + d <= |stream| + 1
    requires gone <= |stream|
    ensures (stream[gone..] + [p])[d..] == (stream + [p])[gone + d..]
    ensures gone + d <= |stream| ==> stream[gone..][d..] == stream[gone + d..]
  {
  }

  lemma {:induction false} AppendIsFifo(initial: seq<Payload>, h: History, h': History, p: Payload)
    requires IsFifo(initial, h)
    requires h'.accepted == h.accepted + [p] && h'.acked == h.acked && h'.ackedBytes == h.ackedBytes
    requires 0 <= h'.dropped - h.dropped <= |Contents(h.queue)| + 1
    requires Contents(h'.queue) == (Contents(h.queue) + [p])[h'.dropped - h.dropped..]
    requires Bytes(h.queue) + RecordBytes(p) == Bytes(h'.queue) + h'.droppedBytes - h.droppedBytes
    ensures IsFifo(initial, h')
  {
    var stream := initial + h.accepted;
    assert initial + h'.accepted == stream + [p];
    SuffixPush(stream, p, h.acked + h.dropped, h'.dropped - h.dropped);
    SizeSnoc(stream, p);
  }

  lemma {:induction false} AckIsFifo(initial: seq<Payload>, h: History, h': History, n: nat)
    requires IsFifo(initial, h)
    requires h'.accepted == h.accepted && h'.dropped == h.dropped && h'.droppedBytes == h.droppedBytes
    requires h'.acked == h.acked + n
    requires n <= |Contents(h.queue)| && Contents(h'.queue) == Contents(h.queue)[n..]
    requires Bytes(h.queue) == Bytes(h'.queue) + h'.ackedBytes - h.ackedBytes
    ensures IsFifo(initial, h')
  {
    SuffixPush(initial + h.accepted, [], h.acked + h.dropped, n);
  }

  lemma {:induction false} StepIsFifo(cfg: Config, initial: seq<Payload>, h: History, op: Op)
    requires Valid(cfg, h.queue)
    requires IsFifo(initial, h)
    ensures IsFifo(initial, Step(cfg, h, op))
  {
    match op
    case OpAppend(p) =>
      AppendRefines(cfg, h.queue, p);
      if Append(cfg, h.queue, p).Ok? { AppendIsFifo(initial, h, Step(cfg, h, op), p); }
    case OpAck(n) =>
      AckRefines(cfg, h.queue, n);
      if Ack(h.queue, n).Ok? { AckIsFifo(initial, h, Step(cfg, h, op), n); }
    case OpReopen => ReopenKeepsQueue(cfg, h.queue);
  }

  /** Over every run of appends, acks and restarts the spool is a FIFO and
      conserves records and bytes. */
  lemma {:induction false} RunIsFifo(cfg: Config, q: Queue, ops: seq<Op>)
    requires Valid(cfg, q)
    requires SafeRun(cfg, q, ops)
    ensures IsFifo(Contents(q), Run(cfg, q, ops))
    decreases |ops|
  {
    if ops == [] {
      assert Contents(q) + [] == Contents(q);
    } else {
      RunKeepsValid(cfg, q, ops[..|ops| - 1]);
      RunIsFifo(cfg, q, ops[..|ops| - 1]);
      StepIsFifo(cfg, Contents(q), Run(cfg, q, ops[..|ops| - 1]), ops[|ops| - 1]);
    }
  }
}
