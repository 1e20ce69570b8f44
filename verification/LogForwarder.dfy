/** The log forwarder: producers push entries into the spool while one drain
    loop reads a batch, sends it, and acknowledges it by count; the process may
    stop and start again anywhere in between. */
module LogForwarding {
  import opened Basics
  import opened SpoolFraming
  import opened SpoolQueue
  import opened DiskSpools

  const BATCH_RECORDS: nat := 100
  const BATCH_BYTES: nat := 1024 * 1024

  /** How sending a batch ended: the backend accepted it; it did not get it or
      rejected it; or it took the batch and the answer was lost. */
  datatype Reply = Accepted | Refused | Unanswered

  /** A batch sent to the backend; `at` is the stream position of its first record. */
  datatype Batch = Batch(records: seq<Payload>, at: nat)

  function End(b: Batch): nat { b.at + |b.records| }

  /** What became of every record ever queued, by its position in the stream.
      `latest` is the last batch handed over and `earlier` what the drop counters
      of earlier processes had, less what the first one started with; a batch is
      overtaken when records were dropped since it was read, and repeated when
      part of it is still queued after it was handed over. */
  datatype Log = Log(stream: seq<Payload>, head: nat, dropped: set<nat>, sent: seq<nat>,
                     corrupt: set<nat>, lost: set<nat>, latest: Batch, earlier: int,
                     overtaken: bool, repeated: bool)

  datatype Forwarder = Forwarder(queue: Queue, inFlight: Option<Batch>, log: Log)

  /** `handedOver` tells whether the backend had taken a batch in flight when the
      process stopped. */
  datatype Event = Push(payload: Payload) | Read | Finish(reply: Reply) | Restart(handedOver: bool)

  /** Decoding a stored entry succeeds. */
  type Decoder = Payload -> bool

  function Initially(q: Queue): Forwarder
  {
    Forwarder(q, None, Log(Contents(q), 0, {}, [], {}, {}, Batch([], 0), 0 - q.droppedRecords, false, false))
  }

  function Range(lo: nat, hi: nat): (r: set<nat>)
    ensures forall i :: i in r <==> lo <= i < hi
    decreases hi - lo
  {
    if lo >= hi then {} else {lo} + Range(lo + 1, hi)
  }

  // ----- batches

  function BatchLength(ps: seq<Payload>, n: nat): (len: nat)
    requires n <= |ps| && BatchFits(ps, n, BATCH_RECORDS, BATCH_BYTES)
    ensures n <= len && LongestBatch(ps, len, BATCH_RECORDS, BATCH_BYTES)
    decreases |ps| - n
  {
    if n < |ps| && BatchFits(ps, n + 1, BATCH_RECORDS, BATCH_BYTES) then BatchLength(ps, n + 1)
    else
      StoppedIsLongest(ps, n, BATCH_RECORDS, BATCH_BYTES);
      n
  }

  function NextBatch(ps: seq<Payload>): (batch: seq<Payload>)
    ensures batch <= ps
    ensures batch == [] <==> ps == []
    ensures LongestBatch(ps, |batch|, BATCH_RECORDS, BATCH_BYTES)
  {
    assert ps != [] ==> BatchFits(ps, 1, BATCH_RECORDS, BATCH_BYTES);
    ps[..BatchLength(ps, 0)]
  }

  /** The stream positions of the records that decode, in order. */
  function SentFrom(decodes: Decoder, records: seq<Payload>, at: nat): seq<nat>
  {
    if records == [] then []
    else (if decodes(records[0]) then [at] else []) + SentFrom(decodes, records[1..], at + 1)
  }

  function CorruptFrom(decodes: Decoder, records: seq<Payload>, at: nat): set<nat>
  {
    if records == [] then {}
    else (if decodes(records[0]) then {} else {at}) + CorruptFrom(decodes, records[1..], at + 1)
  }

  // ----- steps

  function StepPush(cfg: Config, f: Forwarder, p: Payload): Forwarder
  {
    match Append(cfg, f.queue, p)
    case Err(_) => f
    case Ok(q) =>
      f.(queue := q, log := Pushed(f.log, p, Max(q.droppedRecords - f.queue.droppedRecords, 0)))
  }

  /** One more record in the stream, and `d` dropped at its head. */
  function Pushed(log: Log, p: Payload, d: nat): Log
  {
    log.(stream := log.stream + [p],
         dropped := log.dropped + Range(log.head, log.head + d),
         head := log.head + d)
  }

  function StepRead(f: Forwarder): Forwarder
  {
    var batch := NextBatch(Contents(f.queue));
    if f.inFlight.Some? || batch == [] then f
    else f.(inFlight := Some(Batch(batch, f.log.head)))
  }

  /** A batch of nothing but corrupt records is acknowledged without sending it. */
  predicate Completes(decodes: Decoder, b: Batch, reply: Reply)
  {
    SentFrom(decodes, b.records, b.at) == [] || reply.Accepted?
  }

  /** The batch is with the backend, its undecodable records set aside, and the
      queue then starts at `head`. */
  function HandOver(decodes: Decoder, log: Log, b: Batch, head: nat): Log
  {
    log.(sent := log.sent + SentFrom(decodes, b.records, b.at),
         corrupt := log.corrupt + CorruptFrom(decodes, b.records, b.at),
         latest := b,
         overtaken := log.overtaken || log.head != b.at,
         repeated := log.repeated || head < End(b))
  }

  /** The ack removes by count: what it removes past the batch was not in it. */
  function StepFinish(decodes: Decoder, f: Forwarder, reply: Reply): Forwarder
  {
    match f.inFlight
    case None => f
    case Some(b) =>
      var n, log := |b.records|, f.log;
      if !Completes(decodes, b, reply) then
        f.(inFlight := None, log := if reply.Unanswered? then HandOver(decodes, log, b, log.head) else log)
      else
        match Ack(f.queue, n)
        case Err(_) => f.(inFlight := None, log := HandOver(decodes, log, b, log.head))
        case Ok(q) => Forwarder(q, None, Acked(decodes, log, b))
  }

  function Acked(decodes: Decoder, log: Log, b: Batch): Log
  {
    var head := log.head + |b.records|;
    HandOver(decodes, log, b, head).(head := head, lost := log.lost + Range(Max(log.head, End(b)), head))
  }

  /** A new process on the same directory. */
  function StepRestart(cfg: Config, decodes: Decoder, f: Forwarder, handedOver: bool): Forwarder
  {
    var q := Reopen(cfg, f.queue);
    var log := if f.inFlight.Some? && handedOver then HandOver(decodes, f.log, f.inFlight.value, f.log.head) else f.log;
    Forwarder(q, None, log.(earlier := log.earlier + f.queue.droppedRecords - q.droppedRecords))
  }

  function Step(cfg: Config, decodes: Decoder, f: Forwarder, e: Event): Forwarder
  {
    match e
    case Push(p) => StepPush(cfg, f, p)
    case Read => StepRead(f)
    case Finish(reply) => StepFinish(decodes, f, reply)
    case Restart(handedOver) => StepRestart(cfg, decodes, f, handedOver)
  }

  function RunFrom(cfg: Config, decodes: Decoder, f: Forwarder, events: seq<Event>): Forwarder
    decreases |events|
  {
    if events == [] then f
    else Step(cfg, decodes, RunFrom(cfg, decodes, f, events[..|events| - 1]), events[|events| - 1])
  }

  function Run(cfg: Config, decodes: Decoder, q: Queue, events: seq<Event>): Forwarder
  {
    RunFrom(cfg, decodes, Initially(q), events)
  }

  /** No push of the run is given a sequence number that is in use. */
  ghost predicate SafeEvents(cfg: Config, decodes: Decoder, f: Forwarder, events: seq<Event>)
    decreases |events|
  {
    events == [] ||
    (SafeEvents(cfg, decodes, f, events[..|events| - 1]) &&
     SafeEvent(cfg, RunFrom(cfg, decodes, f, events[..|events| - 1]), events[|events| - 1]))
  }

  predicate SafeEvent(cfg: Config, f: Forwarder, e: Event)
  {
    e.Push? ==> Safe(cfg, f.queue, OpAppend(e.payload))
  }

  // ----- what every interleaving keeps

  ghost predicate StrictlyIncreasing(s: seq<nat>)
  {
    forall i, j :: 0 <= i < j < |s| ==> s[i] < s[j]
  }

  predicate Handled(log: Log, i: int) { i in log.sent || i in log.corrupt }

  /** `b` is an allowed batch of the stream that starts at or before the head. */
  ghost predicate Stretch(log: Log, b: Batch)
  {
    && b.at <= log.head
    && End(b) <= |log.stream|
    && b.records == log.stream[b.at..End(b)]
    && BatchFits(b.records, |b.records|, BATCH_RECORDS, BATCH_BYTES)
  }

  /** The queue is the rest of the stream, and batches are stretches of it. */
  ghost predicate Tracks(cfg: Config, f: Forwarder)
  {
    && SpoolQueue.Valid(cfg, f.queue)
    && f.log.head <= |f.log.stream|
    && Contents(f.queue) == f.log.stream[f.log.head..]
    && Stretch(f.log, f.log.latest)
    && (f.inFlight.Some? ==> f.inFlight.value.records != [] && Stretch(f.log, f.inFlight.value))
  }

  /** No batch handed over reached further than the latest one, and the one in
      flight reaches at least as far. */
  ghost predicate Reaches(f: Forwarder)
  {
    && (forall i :: Handled(f.log, i) ==> i < End(f.log.latest))
    && (f.inFlight.Some? ==> End(f.log.latest) <= End(f.inFlight.value))
  }

  /** Every record that has left was dropped by the budget, was in a batch handed
      over and sent or corrupt, or was lost. */
  ghost predicate Accounted(log: Log)
  {
    && (forall i :: 0 <= i < log.head ==> i in log.dropped || Handled(log, i) || i in log.lost)
    && (forall i :: i in log.dropped || i in log.lost ==> i < log.head)
  }

  /** A lost record was never in a batch handed over and is not counted as dropped. */
  ghost predicate LostUnsent(f: Forwarder)
  {
    && (forall i :: i in f.log.lost ==> !Handled(f.log, i) && i !in f.log.dropped)
    && (f.inFlight.Some? ==> forall i :: i in f.log.lost ==> i < f.inFlight.value.at)
  }

  /** The drop counters, over all processes, are the records dropped. */
  ghost predicate DropsCounted(f: Forwarder) { |f.log.dropped| == f.log.earlier + f.queue.droppedRecords }

  /** Exactly decodable records are sent. */
  ghost predicate DecodedSent(decodes: Decoder, log: Log)
  {
    && (forall i :: i in log.sent ==> i < |log.stream| && decodes(log.stream[i]))
    && (forall i :: i in log.corrupt ==> i < |log.stream| && !decodes(log.stream[i]))
  }

  /** As long as nothing handed over stayed queued, records are handed over once
      and in order. */
  ghost predicate OnceInOrder(f: Forwarder)
  {
    !f.log.repeated ==>
      && StrictlyIncreasing(f.log.sent)
      && (forall i :: Handled(f.log, i) ==> i < f.log.head)
      && (f.inFlight.Some? ==> forall i :: Handled(f.log, i) ==> i < f.inFlight.value.at)
  }

  /** As long as no drop overtook a batch nothing is lost, and, if moreover nothing
      handed over stayed queued, nothing handed over is counted as dropped. */
  ghost predicate NoneLost(log: Log)
  {
    && (!log.overtaken ==> log.lost == {})
    && (!log.overtaken && !log.repeated ==> forall i :: Handled(log, i) ==> i !in log.dropped)
  }

  ghost predicate Inv(cfg: Config, decodes: Decoder, f: Forwarder)
  {
    Tracks(cfg, f) && DropsCounted(f) && Ledger(decodes, f)
  }

  ghost predicate Ledger(decodes: Decoder, f: Forwarder)
  {
    && Reaches(f)
    && Accounted(f.log)
    && LostUnsent(f)
    && DecodedSent(decodes, f.log)
    && OnceInOrder(f)
    && NoneLost(f.log)
  }

  lemma ConcatIncreasing(a: seq<nat>, b: seq<nat>, cut: nat)
    requires StrictlyIncreasing(a) && StrictlyIncreasing(b)
    requires forall x :: x in a ==> x < cut
    requires forall y :: y in b ==> cut <= y
    ensures StrictlyIncreasing(a + b)
  {
    forall i, j | 0 <= i < j < |a + b|
      ensures (a + b)[i] < (a + b)[j]
    {
      if i < |a| <= j { assert a[i] in a && b[j - |a|] in b; }
    }
  }

  lemma SentCons(decodes: Decoder, p: Payload, rest: seq<Payload>, at: nat)
    ensures SentFrom(decodes, [p] + rest, at) == (if decodes(p) then [at] else []) + SentFrom(decodes, rest, at + 1)
  {
    assert ([p] + rest)[1..] == rest;
  }

  lemma InConcat(a: seq<nat>, b: seq<nat>, i: nat)
    ensures i in a + b <==> i in a || i in b
  {
  }

  lemma {:induction false} SentFromIff(decodes: Decoder, records: seq<Payload>, at: nat, i: nat)
    ensures i in SentFrom(decodes, records, at) <==>
            at <= i < at + |records| && decodes(records[i - at])
  {
    if records != [] {
      var p, tail := records[0], records[1..];
      assert records == [p] + tail;
      SentFromIff(decodes, tail, at + 1, i);
      SentCons(decodes, p, tail, at);
      InConcat(if decodes(p) then [at] else [], SentFrom(decodes, tail, at + 1), i);
      if at < i < at + |records| { assert tail[i - (at + 1)] == records[i - at]; }
    }
  }

  lemma {:induction false} CorruptFromIff(decodes: Decoder, records: seq<Payload>, at: nat, i: nat)
    ensures i in CorruptFrom(decodes, records, at) <==>
            at <= i < at + |records| && !decodes(records[i - at])
  {
    if records != [] {
      var tail := records[1..];
      CorruptFromIff(decodes, tail, at + 1, i);
      if at < i < at + |records| { assert tail[i - (at + 1)] == records[i - at]; }
    }
  }

  lemma {:induction false} SentFromIncreasing(decodes: Decoder, records: seq<Payload>, at: nat)
    ensures StrictlyIncreasing(SentFrom(decodes, records, at))
  {
    if records != [] {
      var rest := SentFrom(decodes, records[1..], at + 1);
      SentFromIncreasing(decodes, records[1..], at + 1);
      forall y | y in rest ensures at + 1 <= y { SentFromIff(decodes, records[1..], at + 1, y); }
      if decodes(records[0]) {
        ConcatIncreasing([at], rest, at + 1);
      } else {
        assert [] + rest == rest;
      }
    }
  }

  /** A record of a batch is sent or corrupt, as it decodes or not. */
  lemma {:induction false} SentFromSpec(decodes: Decoder, records: seq<Payload>, at: nat)
    ensures StrictlyIncreasing(SentFrom(decodes, records, at))
    ensures forall i :: i in SentFrom(decodes, records, at) ==> at <= i < at + |records|
    ensures forall i :: i in CorruptFrom(decodes, records, at) ==> at <= i < at + |records|
    ensures forall i :: at <= i < at + |records| ==>
                        (i in SentFrom(decodes, records, at) <==> i !in CorruptFrom(decodes, records, at))
  {
    SentFromIncreasing(decodes, records, at);
    forall i: nat
      ensures i in SentFrom(decodes, records, at) ==> at <= i < at + |records|
      ensures i in CorruptFrom(decodes, records, at) ==> at <= i < at + |records|
      ensures at <= i < at + |records| ==>
                (i in SentFrom(decodes, records, at) <==> i !in CorruptFrom(decodes, records, at))
    {
      SentFromIff(decodes, records, at, i);
      CorruptFromIff(decodes, records, at, i);
    }
  }

  lemma SliceSnoc(s: seq<Payload>, p: Payload, i: nat, j: nat)
    requires i <= j <= |s|
    ensures (s + [p])[i..j] == s[i..j]
  {
  }

  lemma {:induction false} RangeSize(lo: nat, hi: nat)
    requires lo <= hi
    ensures |Range(lo, hi)| == hi - lo
    decreases hi - lo
  {
    if lo < hi { RangeSize(lo + 1, hi); }
  }

  // ----- a push

  lemma {:induction false} StretchPushed(log: Log, p: Payload, d: nat, b: Batch)
    requires Stretch(log, b)
    ensures Stretch(Pushed(log, p, d), b)
  {
    SliceSnoc(log.stream, p, b.at, End(b));
  }

  lemma {:induction false} PushTracks(cfg: Config, f: Forwarder, p: Payload, d: nat)
    requires Tracks(cfg, f) && Safe(cfg, f.queue, OpAppend(p)) && Append(cfg, f.queue, p).Ok?
    requires d == Append(cfg, f.queue, p).value.droppedRecords - f.queue.droppedRecords
    ensures Tracks(cfg, Forwarder(Append(cfg, f.queue, p).value, f.inFlight, Pushed(f.log, p, d)))
  {
    AppendRefines(cfg, f.queue, p);
    SuffixPush(f.log.stream, p, f.log.head, d);
    StretchPushed(f.log, p, d, f.log.latest);
    if f.inFlight.Some? { StretchPushed(f.log, p, d, f.inFlight.value); }
  }

  lemma {:induction false} PushedKeepsLog(decodes: Decoder, f: Forwarder, f': Forwarder, p: Payload, d: nat)
    requires f'.log == Pushed(f.log, p, d) && f'.inFlight == f.inFlight
    requires Ledger(decodes, f)
    ensures Ledger(decodes, f')
  {
    assert forall i :: Handled(f'.log, i) <==> Handled(f.log, i);
  }

  lemma PushCounts(f: Forwarder, f': Forwarder, more: set<nat>)
    requires DropsCounted(f) && Accounted(f.log)
    requires forall i :: i in more ==> f.log.head <= i
    requires f'.log.dropped == f.log.dropped + more && f'.log.earlier == f.log.earlier
    requires f'.queue.droppedRecords == f.queue.droppedRecords + |more|
    ensures DropsCounted(f')
  {
    assert f.log.dropped !! more;
  }

  lemma {:induction false} PushKeepsInv(cfg: Config, decodes: Decoder, f: Forwarder, p: Payload)
    requires Inv(cfg, decodes, f) && Safe(cfg, f.queue, OpAppend(p))
    ensures Inv(cfg, decodes, StepPush(cfg, f, p))
  {
    AppendRefines(cfg, f.queue, p);
    if Append(cfg, f.queue, p).Ok? {
      var d := Append(cfg, f.queue, p).value.droppedRecords - f.queue.droppedRecords;
      PushTracks(cfg, f, p, d);
      RangeSize(f.log.head, f.log.head + d);
      PushCounts(f, StepPush(cfg, f, p), Range(f.log.head, f.log.head + d));
      PushedKeepsLog(decodes, f, StepPush(cfg, f, p), p, d);
    }
  }

  // ----- a read

  /** A later batch ends no earlier: what is left of an allowed batch is allowed. */
  lemma {:induction false} LaterEndsLater(ps: seq<Payload>, k: nat, m: nat)
    requires k <= m <= |ps| && BatchFits(ps[..m], m, BATCH_RECORDS, BATCH_BYTES)
    ensures m - k <= |NextBatch(ps[k..])|
  {
    var rest := ps[k..];
    var n := m - k;
    assert ps[..m][..m] == ps[..m];
    assert rest[..n] == ps[k..m];
    if n > 1 {
      PayloadBytesConcat(ps[..k], ps[k..m]);
      assert ps[..k] + ps[k..m] == ps[..m];
    }
    assert BatchFits(rest, n, BATCH_RECORDS, BATCH_BYTES);
    assert LongestBatch(rest, BatchLength(rest, 0), BATCH_RECORDS, BATCH_BYTES);
  }

  lemma {:induction false} ReadReaches(cfg: Config, f: Forwarder)
    requires Tracks(cfg, f)
    ensures End(f.log.latest) <= f.log.head + |NextBatch(Contents(f.queue))|
  {
    var b, s, h := f.log.latest, f.log.stream, f.log.head;
    if h < End(b) {
      var ps, k, m := s[b.at..], h - b.at, |b.records|;
      assert ps[k..] == s[h..];
      assert ps[..m] == b.records;
      LaterEndsLater(ps, k, m);
    }
  }

  lemma {:induction false} ReadTracks(cfg: Config, f: Forwarder)
    requires Tracks(cfg, f)
    ensures Tracks(cfg, StepRead(f))
  {
    var c, h := Contents(f.queue), f.log.head;
    var batch := NextBatch(c);
    assert batch == c[..|batch|] == f.log.stream[h..h + |batch|];
    assert LongestBatch(c, BatchLength(c, 0), BATCH_RECORDS, BATCH_BYTES);
    assert batch[..|batch|] == batch == c[..|batch|];
  }

  lemma {:induction false} ReadKeepsInv(cfg: Config, decodes: Decoder, f: Forwarder)
    requires Inv(cfg, decodes, f)
    ensures Inv(cfg, decodes, StepRead(f))
  {
    ReadTracks(cfg, f);
    ReadReaches(cfg, f);
  }

  // ----- handing a batch over

  lemma {:induction false} HandOverHandles(decodes: Decoder, log: Log, b: Batch, head: nat)
    ensures forall i :: Handled(HandOver(decodes, log, b, head), i) <==> Handled(log, i) || b.at <= i < End(b)
  {
    SentFromSpec(decodes, b.records, b.at);
    var log' := HandOver(decodes, log, b, head);
    forall i ensures Handled(log', i) <==> Handled(log, i) || b.at <= i < End(b) {
      if b.at <= i < End(b) {
        assert i in SentFrom(decodes, b.records, b.at) || i in CorruptFrom(decodes, b.records, b.at);
      }
    }
  }

  lemma {:induction false} HandOverDecodes(decodes: Decoder, log: Log, b: Batch, head: nat)
    requires DecodedSent(decodes, log) && Stretch(log, b)
    ensures DecodedSent(decodes, HandOver(decodes, log, b, head))
  {
    forall i: nat
      ensures i in SentFrom(decodes, b.records, b.at) ==> i < |log.stream| && decodes(log.stream[i])
      ensures i in CorruptFrom(decodes, b.records, b.at) ==> i < |log.stream| && !decodes(log.stream[i])
    {
      SentFromIff(decodes, b.records, b.at, i);
      CorruptFromIff(decodes, b.records, b.at, i);
      if b.at <= i < End(b) { assert b.records[i - b.at] == log.stream[i]; }
    }
  }

  lemma {:induction false} HandOverInOrder(decodes: Decoder, f: Forwarder, head: nat)
    requires OnceInOrder(f) && f.inFlight.Some?
    ensures var log' := HandOver(decodes, f.log, f.inFlight.value, head);
            !log'.repeated ==> StrictlyIncreasing(log'.sent) && forall i :: Handled(log', i) ==> i < head
  {
    var b := f.inFlight.value;
    SentFromSpec(decodes, b.records, b.at);
    HandOverHandles(decodes, f.log, b, head);
    if !f.log.repeated {
      assert forall i :: i in f.log.sent ==> Handled(f.log, i);
      ConcatIncreasing(f.log.sent, SentFrom(decodes, b.records, b.at), b.at);
    }
  }

  /** What handing over the batch in flight keeps, wherever the head is then. */
  lemma {:induction false} HandOverKeeps(decodes: Decoder, f: Forwarder, head: nat)
    requires Ledger(decodes, f) && f.inFlight.Some? && Stretch(f.log, f.inFlight.value)
    ensures var b := f.inFlight.value;
            && var log' := HandOver(decodes, f.log, b, head);
            && (forall i :: Handled(log', i) <==> Handled(f.log, i) || b.at <= i < End(b))
            && (forall i :: Handled(log', i) ==> i < End(b))
            && DecodedSent(decodes, log')
            && (!log'.repeated ==> StrictlyIncreasing(log'.sent) && forall i :: Handled(log', i) ==> i < head)
  {
    HandOverHandles(decodes, f.log, f.inFlight.value, head);
    HandOverDecodes(decodes, f.log, f.inFlight.value, head);
    HandOverInOrder(decodes, f, head);
  }

  /** A batch handed over whose ack does not happen: all of the queue stays. */
  lemma {:induction false} KeptKeepsLedger(decodes: Decoder, f: Forwarder)
    requires Ledger(decodes, f) && f.inFlight.Some? && Stretch(f.log, f.inFlight.value)
    ensures Ledger(decodes, f.(inFlight := None, log := HandOver(decodes, f.log, f.inFlight.value, f.log.head)))
  {
    HandOverKeeps(decodes, f, f.log.head);
  }

  lemma {:induction false} AckTracks(cfg: Config, decodes: Decoder, f: Forwarder)
    requires Tracks(cfg, f) && f.inFlight.Some? && |f.inFlight.value.records| <= |Contents(f.queue)|
    ensures var b := f.inFlight.value;
            && Ack(f.queue, |b.records|).Ok?
            && var q := Ack(f.queue, |b.records|).value;
            && Tracks(cfg, Forwarder(q, None, Acked(decodes, f.log, b)))
            && q.droppedRecords == f.queue.droppedRecords
            && Contents(q) == f.log.stream[f.log.head + |b.records|..]
  {
    var n := |f.inFlight.value.records|;
    AckRefines(cfg, f.queue, n);
    SuffixPush(f.log.stream, [], f.log.head, n);
  }

  lemma {:induction false} AckedKeepsLedger(decodes: Decoder, f: Forwarder, f': Forwarder)
    requires Ledger(decodes, f) && f.inFlight.Some? && Stretch(f.log, f.inFlight.value) && f'.inFlight.None?
    requires f'.log == Acked(decodes, f.log, f.inFlight.value)
    ensures Ledger(decodes, f')
  {
    var b := f.inFlight.value;
    var n := |b.records|;
    HandOverKeeps(decodes, f, f.log.head + n);
    assert forall i :: Handled(f'.log, i) <==> Handled(HandOver(decodes, f.log, b, f.log.head + n), i);
    if !f'.log.overtaken { assert Range(f.log.head + n, f.log.head + n) == {}; }
  }

  lemma {:induction false} FinishTracks(cfg: Config, decodes: Decoder, f: Forwarder, reply: Reply)
    requires Tracks(cfg, f)
    ensures Tracks(cfg, StepFinish(decodes, f, reply))
    ensures DropsCounted(f) ==> DropsCounted(StepFinish(decodes, f, reply))
  {
    if f.inFlight.Some? {
      var n := |f.inFlight.value.records|;
      if n <= |Contents(f.queue)| { AckTracks(cfg, decodes, f); }
    }
  }

  lemma {:induction false} FinishKeepsInv(cfg: Config, decodes: Decoder, f: Forwarder, reply: Reply)
    requires Inv(cfg, decodes, f)
    ensures Inv(cfg, decodes, StepFinish(decodes, f, reply))
  {
    FinishTracks(cfg, decodes, f, reply);
    FinishKeepsLedger(cfg, decodes, f, reply);
  }

  lemma {:induction false} FinishKeepsLedger(cfg: Config, decodes: Decoder, f: Forwarder, reply: Reply)
    requires Tracks(cfg, f) && Ledger(decodes, f)
    ensures Ledger(decodes, StepFinish(decodes, f, reply))
  {
    if f.inFlight.Some? {
      var b, f' := f.inFlight.value, StepFinish(decodes, f, reply);
      if f'.log == f.log {
      } else if f'.log == Acked(decodes, f.log, b) {
        AckedKeepsLedger(decodes, f, f');
      } else {
        KeptKeepsLedger(decodes, f);
      }
    }
  }

  /** A restart keeps the queue, so it loses nothing; what was handed over and not
      acknowledged is still queued and will be sent again. */
  lemma {:induction false} RestartKeepsQueue(cfg: Config, decodes: Decoder, f: Forwarder, handedOver: bool)
    requires Tracks(cfg, f) && DropsCounted(f)
    ensures var f' := StepRestart(cfg, decodes, f, handedOver);
            && Tracks(cfg, f') && DropsCounted(f') && f'.inFlight.None?
            && Contents(f'.queue) == Contents(f.queue)
            && f'.log.head == f.log.head && f'.log.lost == f.log.lost && f'.log.dropped == f.log.dropped
  {
    ReopenKeepsQueue(cfg, f.queue);
  }

  lemma {:induction false} RestartKeepsInv(cfg: Config, decodes: Decoder, f: Forwarder, handedOver: bool)
    requires Inv(cfg, decodes, f)
    ensures Inv(cfg, decodes, StepRestart(cfg, decodes, f, handedOver))
  {
    RestartKeepsQueue(cfg, decodes, f, handedOver);
    if f.inFlight.Some? && handedOver { KeptKeepsLedger(decodes, f); }
    var log := if f.inFlight.Some? && handedOver then HandOver(decodes, f.log, f.inFlight.value, f.log.head) else f.log;
    SameLedger(decodes, f.(inFlight := None, log := log), StepRestart(cfg, decodes, f, handedOver));
  }

  lemma {:induction false} SameLedger(decodes: Decoder, f: Forwarder, f': Forwarder)
    requires Ledger(decodes, f) && f'.inFlight == f.inFlight
    requires f'.log == f.log.(earlier := f'.log.earlier)
    ensures Ledger(decodes, f')
  {
    assert forall i :: Handled(f'.log, i) <==> Handled(f.log, i);
  }

  // ----- whole runs

  lemma {:induction false} StepKeepsInv(cfg: Config, decodes: Decoder, f: Forwarder, e: Event)
    requires Inv(cfg, decodes, f) && SafeEvent(cfg, f, e)
    ensures Inv(cfg, decodes, Step(cfg, decodes, f, e))
  {
    match e
    case Push(p) => PushKeepsInv(cfg, decodes, f, p);
    case Read => ReadKeepsInv(cfg, decodes, f);
    case Finish(reply) => FinishKeepsInv(cfg, decodes, f, reply);
    case Restart(handedOver) => RestartKeepsInv(cfg, decodes, f, handedOver);
  }

  lemma {:induction false} RunFromKeepsInv(cfg: Config, decodes: Decoder, f: Forwarder, events: seq<Event>)
    requires Inv(cfg, decodes, f) && SafeEvents(cfg, decodes, f, events)
    ensures Inv(cfg, decodes, RunFrom(cfg, decodes, f, events))
    decreases |events|
  {
    if events != [] {
      var init := events[..|events| - 1];
      RunFromKeepsInv(cfg, decodes, f, init);
      StepKeepsInv(cfg, decodes, RunFrom(cfg, decodes, f, init), events[|events| - 1]);
    }
  }

  lemma InitiallyInv(cfg: Config, decodes: Decoder, q: Queue)
    requires SpoolQueue.Valid(cfg, q)
    ensures Inv(cfg, decodes, Initially(q))
  {
    assert Contents(q)[0..] == Contents(q);
  }

  /** Over every interleaving of pushes, drain steps and restarts: each record that
      left was dropped and counted, was handed over as it decodes, or was lost and
      never handed over; nothing is lost while no drop overtakes a batch, and
      records are handed over once and in order while none stays queued. */
  lemma {:induction false} RunKeepsInv(cfg: Config, decodes: Decoder, q: Queue, events: seq<Event>)
    requires SpoolQueue.Valid(cfg, q)
    requires SafeEvents(cfg, decodes, Initially(q), events)
    ensures Inv(cfg, decodes, Run(cfg, decodes, q, events))
  {
    InitiallyInv(cfg, decodes, q);
    RunFromKeepsInv(cfg, decodes, Initially(q), events);
  }

  // ----- what an ack removes and what it leaves

  /** A successful ack of a batch of n removes the n records at the head; when
      d records were dropped since the batch was read these are positions d to
      d + n - 1 of the queue as read, and the last min(d, n) of them were in no
      batch ever handed over. */
  lemma {:induction false} AckAfterDrops(cfg: Config, decodes: Decoder, f: Forwarder, reply: Reply)
    requires Inv(cfg, decodes, f)
    requires f.inFlight.Some? && Completes(decodes, f.inFlight.value, reply)
    requires |f.inFlight.value.records| <= |Contents(f.queue)|
    ensures var b, n, f' := f.inFlight.value, |f.inFlight.value.records|, StepFinish(decodes, f, reply);
            && var d := f.log.head - b.at;
            && f'.log.head == b.at + d + n
            && Contents(f'.queue) == f.log.stream[b.at..][d + n..]
            && (forall i :: b.at + Max(d, n) <= i < b.at + d + n ==> !Handled(f'.log, i) && i !in f'.log.dropped)
            && (forall i :: f.log.head <= i < b.at + n ==> Handled(f'.log, i))
  {
    AckContents(cfg, decodes, f, reply);
    AckHandled(cfg, decodes, f, reply);
  }

  lemma {:induction false} AckContents(cfg: Config, decodes: Decoder, f: Forwarder, reply: Reply)
    requires Tracks(cfg, f) && f.inFlight.Some? && Completes(decodes, f.inFlight.value, reply)
    requires |f.inFlight.value.records| <= |Contents(f.queue)|
    ensures var b, n, f' := f.inFlight.value, |f.inFlight.value.records|, StepFinish(decodes, f, reply);
            && f'.log == Acked(decodes, f.log, b)
            && Contents(f'.queue) == f.log.stream[b.at..][f.log.head - b.at + n..]
  {
    AckTracks(cfg, decodes, f);
    var b, n := f.inFlight.value, |f.inFlight.value.records|;
    SuffixOfSuffix(f.log.stream, b.at, f.log.head - b.at + n);
  }

  lemma SuffixOfSuffix(s: seq<Payload>, i: nat, j: nat)
    requires i + j <= |s|
    ensures s[i..][j..] == s[i + j..]
  {
  }

  lemma {:induction false} AckHandled(cfg: Config, decodes: Decoder, f: Forwarder, reply: Reply)
    requires Inv(cfg, decodes, f)
    requires f.inFlight.Some? && Completes(decodes, f.inFlight.value, reply)
    requires |f.inFlight.value.records| <= |Contents(f.queue)|
    ensures var b, n, log := f.inFlight.value, |f.inFlight.value.records|, StepFinish(decodes, f, reply).log;
            && (forall i :: Max(f.log.head, End(b)) <= i < f.log.head + n ==> !Handled(log, i) && i !in log.dropped)
            && (forall i :: f.log.head <= i < b.at + n ==> Handled(log, i))
  {
    AckContents(cfg, decodes, f, reply);
    FinishKeepsLedger(cfg, decodes, f, reply);
    AckedHandles(decodes, f, StepFinish(decodes, f, reply).log);
  }

  lemma {:induction false} AckedHandles(decodes: Decoder, f: Forwarder, log': Log)
    requires f.inFlight.Some? && log' == Acked(decodes, f.log, f.inFlight.value)
    ensures forall i :: f.inFlight.value.at <= i < End(f.inFlight.value) ==> Handled(log', i)
  {
    var b, n := f.inFlight.value, |f.inFlight.value.records|;
    HandOverHandles(decodes, f.log, b, f.log.head + n);
    assert forall i :: Handled(log', i) <==> Handled(HandOver(decodes, f.log, b, f.log.head + n), i);
  }

  /** A successful ack removes a record that was never handed over if and only if
      a drop came between the read and the ack. */
  lemma {:induction false} AckLosesIff(cfg: Config, decodes: Decoder, f: Forwarder, reply: Reply)
    requires Inv(cfg, decodes, f)
    requires f.inFlight.Some? && Completes(decodes, f.inFlight.value, reply)
    requires |f.inFlight.value.records| <= |Contents(f.queue)|
    ensures var f' := StepFinish(decodes, f, reply);
            (exists i :: f.log.head <= i < f'.log.head && !Handled(f'.log, i)) <==> f.log.head != f.inFlight.value.at
  {
    var b, n := f.inFlight.value, |f.inFlight.value.records|;
    AckAfterDrops(cfg, decodes, f, reply);
    var f', last := StepFinish(decodes, f, reply), f.log.head + n - 1;
    if f.log.head != b.at { assert !Handled(f'.log, last); }
  }

  /** After a batch was handed over, a record of it that was sent is still queued
      if and only if the ack was refused, because drops left fewer records than the
      batch has, while a record of it that decodes was not yet dropped. */
  lemma {:induction false} SentStaysQueuedIff(cfg: Config, decodes: Decoder, f: Forwarder)
    requires Inv(cfg, decodes, f) && f.inFlight.Some?
    ensures var b, f' := f.inFlight.value, StepFinish(decodes, f, Accepted);
            (exists i :: i in SentFrom(decodes, b.records, b.at) && f'.log.head <= i)
            <==> && |Contents(f.queue)| < |b.records|
                 && exists i :: f.log.head <= i < End(b) && decodes(f.log.stream[i])
  {
    var b, head := f.inFlight.value, StepFinish(decodes, f, Accepted).log.head;
    AcceptedHead(cfg, decodes, f);
    if i: nat :| i in SentFrom(decodes, b.records, b.at) && head <= i {
      SentInStretch(decodes, f.log, b, i);
      assert f.log.head <= i < End(b) && decodes(f.log.stream[i]);
    }
    if |Contents(f.queue)| < |b.records| {
      if i: nat :| f.log.head <= i < End(b) && decodes(f.log.stream[i]) {
        SentInStretch(decodes, f.log, b, i);
        assert i in SentFrom(decodes, b.records, b.at) && head <= i;
      }
    }
  }

  /** Where the queue starts after an accepted batch. */
  lemma {:induction false} AcceptedHead(cfg: Config, decodes: Decoder, f: Forwarder)
    requires Tracks(cfg, f) && f.inFlight.Some?
    ensures var n := |f.inFlight.value.records|;
            StepFinish(decodes, f, Accepted).log.head
            == if |Contents(f.queue)| < n then f.log.head else f.log.head + n
  {
    AckRefines(cfg, f.queue, |f.inFlight.value.records|);
  }

  /** What a batch of the stream sends, in terms of the stream. */
  lemma {:induction false} SentInStretch(decodes: Decoder, log: Log, b: Batch, i: nat)
    requires Stretch(log, b)
    ensures i in SentFrom(decodes, b.records, b.at) <==> b.at <= i < End(b) && decodes(log.stream[i])
  {
    SentFromIff(decodes, b.records, b.at, i);
    if b.at <= i < End(b) { assert b.records[i - b.at] == log.stream[i]; }
  }

  /** Such a record at the head is sent a second time by the next round. */
  lemma {:induction false} SentAgain(cfg: Config, decodes: Decoder, f: Forwarder)
    requires Inv(cfg, decodes, f) && f.inFlight.None?
    requires f.log.head in f.log.sent && f.log.head < |f.log.stream|
    ensures multiset(Round(cfg, decodes, f).log.sent)[f.log.head] >= 2
  {
    RoundDrains(cfg, decodes, f);
    var c := Contents(f.queue);
    assert c[0] == f.log.stream[f.log.head];
    var again := SentFrom(decodes, c[..|NextBatch(c)|], f.log.head);
    SentFromIff(decodes, c[..|NextBatch(c)|], f.log.head, f.log.head);
    assert multiset(f.log.sent + again) == multiset(f.log.sent) + multiset(again);
  }

  // ----- progress

  /** Rounds of a read and an accepted send. */
  function Rounds(k: nat): seq<Event>
  {
    if k == 0 then [] else Rounds(k - 1) + [Read] + [Finish(Accepted)]
  }

  function AfterRounds(cfg: Config, decodes: Decoder, f: Forwarder, k: nat): Forwarder
  {
    if k == 0 then f else Round(cfg, decodes, AfterRounds(cfg, decodes, f, k - 1))
  }

  function Round(cfg: Config, decodes: Decoder, f: Forwarder): Forwarder
  {
    Step(cfg, decodes, Step(cfg, decodes, f, Read), Finish(Accepted))
  }

  lemma {:induction false} RunRounds(cfg: Config, decodes: Decoder, f: Forwarder, k: nat)
    ensures RunFrom(cfg, decodes, f, Rounds(k)) == AfterRounds(cfg, decodes, f, k)
  {
    if k > 0 {
      RunRounds(cfg, decodes, f, k - 1);
      RunRound(cfg, decodes, f, Rounds(k - 1));
    }
  }

  lemma RunRound(cfg: Config, decodes: Decoder, f: Forwarder, events: seq<Event>)
    ensures RunFrom(cfg, decodes, f, events + [Read] + [Finish(Accepted)])
            == Round(cfg, decodes, RunFrom(cfg, decodes, f, events))
  {
    RunSnoc(cfg, decodes, f, events, Read);
    RunSnoc(cfg, decodes, f, events + [Read], Finish(Accepted));
  }

  lemma RunSnoc(cfg: Config, decodes: Decoder, f: Forwarder, events: seq<Event>, e: Event)
    ensures RunFrom(cfg, decodes, f, events + [e]) == Step(cfg, decodes, RunFrom(cfg, decodes, f, events), e)
  {
    assert (events + [e])[..|events|] == events;
  }

  lemma {:induction false} SentFromConcat(decodes: Decoder, a: seq<Payload>, b: seq<Payload>, at: nat)
    ensures SentFrom(decodes, a + b, at) == SentFrom(decodes, a, at) + SentFrom(decodes, b, at + |a|)
  {
    if a == [] {
      assert a + b == b;
    } else {
      assert (a + b)[1..] == a[1..] + b;
      SentFromConcat(decodes, a[1..], b, at + 1);
      SentConcat(if decodes(a[0]) then [at] else [], SentFrom(decodes, a[1..], at + 1), SentFrom(decodes, b, at + |a|));
    }
  }

  /** A drain of `n` records from `f`: they are gone from the queue and those that
      decode are sent, in order; nothing else is. */
  ghost predicate Drains(decodes: Decoder, f: Forwarder, f': Forwarder, n: nat)
  {
    var c := Contents(f.queue);
    && n <= |c|
    && f'.inFlight.None?
    && Contents(f'.queue) == c[n..] && f'.log.head == f.log.head + n
    && f'.log.sent == f.log.sent + SentFrom(decodes, c[..n], f.log.head)
    && f'.log.lost == f.log.lost && f'.log.dropped == f.log.dropped
  }

  lemma {:induction false} RoundDrains(cfg: Config, decodes: Decoder, f: Forwarder)
    requires Tracks(cfg, f) && f.inFlight.None?
    ensures Drains(decodes, f, Round(cfg, decodes, f), |NextBatch(Contents(f.queue))|)
  {
    var c := Contents(f.queue);
    var n := |NextBatch(c)|;
    AckRefines(cfg, f.queue, n);
    if n > 0 {
      assert Range(f.log.head + n, f.log.head + n) == {};
    } else {
      assert f.log.sent + [] == f.log.sent;
    }
  }

  lemma {:induction false} DrainsTwice(decodes: Decoder, f: Forwarder, g: Forwarder, h: Forwarder, m: nat, n: nat)
    requires Drains(decodes, f, g, m) && Drains(decodes, g, h, n)
    ensures Drains(decodes, f, h, m + n)
  {
    var c := Contents(f.queue);
    assert c[m..][..n] == c[m..m + n] && c[m..][n..] == c[m + n..];
    assert c[..m] + c[m..m + n] == c[..m + n];
    SentFromConcat(decodes, c[..m], c[m..m + n], f.log.head);
    SentConcat(f.log.sent, SentFrom(decodes, c[..m], f.log.head), SentFrom(decodes, c[m..m + n], f.log.head + m));
  }

  lemma DrainsNothing(decodes: Decoder, f: Forwarder)
    requires f.inFlight.None?
    ensures Drains(decodes, f, f, 0)
  {
    assert f.log.sent + [] == f.log.sent;
  }

  /** `h` is `g` with some records drained, if there were any. */
  ghost predicate Advances(decodes: Decoder, g: Forwarder, h: Forwarder)
  {
    exists n :: Drains(decodes, g, h, n) && (n > 0 || Contents(g.queue) == [])
  }

  lemma {:induction false} AdvanceAll(decodes: Decoder, gs: seq<Forwarder>, k: nat) returns (n: nat)
    requires k < |gs| && gs[0].inFlight.None?
    requires forall i :: 0 < i < |gs| ==> Advances(decodes, gs[i - 1], gs[i])
    ensures Min(k, |Contents(gs[0].queue)|) <= n && Drains(decodes, gs[0], gs[k], n)
    decreases k
  {
    if k == 0 {
      n := 0;
      DrainsNothing(decodes, gs[0]);
    } else {
      var m := AdvanceAll(decodes, gs, k - 1);
      var d: nat :| Drains(decodes, gs[k - 1], gs[k], d) && (d > 0 || Contents(gs[k - 1].queue) == []);
      DrainsTwice(decodes, gs[0], gs[k - 1], gs[k], m, d);
      n := m + d;
    }
  }

  lemma {:induction false} RoundAdvances(cfg: Config, decodes: Decoder, f: Forwarder)
    requires Tracks(cfg, f) && f.inFlight.None?
    ensures Advances(decodes, f, Round(cfg, decodes, f))
    ensures Tracks(cfg, Round(cfg, decodes, f)) && Round(cfg, decodes, f).inFlight.None?
  {
    RoundDrains(cfg, decodes, f);
    ReadTracks(cfg, f);
    FinishTracks(cfg, decodes, StepRead(f), Accepted);
  }

  lemma {:induction false} RoundStates(cfg: Config, decodes: Decoder, f: Forwarder, k: nat) returns (gs: seq<Forwarder>)
    requires Tracks(cfg, f) && f.inFlight.None?
    ensures |gs| == k + 1 && gs[0] == f && gs[k] == AfterRounds(cfg, decodes, f, k)
    ensures Tracks(cfg, gs[k]) && gs[k].inFlight.None?
    ensures forall i :: 0 < i < |gs| ==> Advances(decodes, gs[i - 1], gs[i])
  {
    if k == 0 {
      gs := [f];
    } else {
      gs := RoundStates(cfg, decodes, f, k - 1);
      RoundAdvances(cfg, decodes, gs[k - 1]);
      AdvancesSnoc(decodes, gs, Round(cfg, decodes, gs[k - 1]));
      gs := gs + [Round(cfg, decodes, gs[k - 1])];
    }
  }

  lemma AdvancesSnoc(decodes: Decoder, gs: seq<Forwarder>, h: Forwarder)
    requires gs != [] && Advances(decodes, gs[|gs| - 1], h)
    requires forall i :: 0 < i < |gs| ==> Advances(decodes, gs[i - 1], gs[i])
    ensures forall i :: 0 < i < |gs + [h]| ==> Advances(decodes, (gs + [h])[i - 1], (gs + [h])[i])
  {
  }

  lemma SentConcat(a: seq<nat>, b: seq<nat>, c: seq<nat>)
    ensures a + (b + c) == a + b + c
  {
  }

  lemma {:induction false} EnoughRounds(cfg: Config, decodes: Decoder, f: Forwarder, k: nat)
    requires Tracks(cfg, f) && f.inFlight.None? && k >= |Contents(f.queue)|
    ensures Drains(decodes, f, AfterRounds(cfg, decodes, f, k), |Contents(f.queue)|)
  {
    var gs := RoundStates(cfg, decodes, f, k);
    EnoughAdvances(decodes, gs);
  }

  lemma {:induction false} EnoughAdvances(decodes: Decoder, gs: seq<Forwarder>)
    requires gs != [] && gs[0].inFlight.None? && |Contents(gs[0].queue)| < |gs|
    requires forall i :: 0 < i < |gs| ==> Advances(decodes, gs[i - 1], gs[i])
    ensures Drains(decodes, gs[0], gs[|gs| - 1], |Contents(gs[0].queue)|)
  {
    var n := AdvanceAll(decodes, gs, |gs| - 1);
  }

  /** Progress: while nothing is pushed, as many accepted rounds as there are records
      empty the queue, sending exactly its decodable records, once and in order. */
  lemma {:induction false} RoundsDrain(cfg: Config, decodes: Decoder, f: Forwarder, k: nat)
    requires Tracks(cfg, f) && f.inFlight.None? && k >= |Contents(f.queue)|
    ensures var f' := RunFrom(cfg, decodes, f, Rounds(k));
            && Contents(f'.queue) == []
            && f'.log.sent == f.log.sent + SentFrom(decodes, Contents(f.queue), f.log.head)
            && f'.log.lost == f.log.lost && f'.log.dropped == f.log.dropped
  {
    EnoughRounds(cfg, decodes, f, k);
    RunRounds(cfg, decodes, f, k);
    var c := Contents(f.queue);
    assert c[..|c|] == c && c[|c|..] == [];
  }

  // ----- runs that lose and that repeat

  /** In a spool with room for one such record a push leaves only the newest. */
  lemma {:induction false} PushAlone(cfg: Config, q: Queue, e: Payload)
    requires SpoolQueue.Valid(cfg, q) && cfg.maxSegmentBytes <= cfg.maxBytes
    requires RecordBytes(e) <= cfg.maxBytes < 2 * RecordBytes(e)
    requires Contents(q) == [] || Contents(q) == [e]
    ensures var r := Append(cfg, q, e);
            r.Ok? && Contents(r.value) == [e] && r.value.droppedRecords == q.droppedRecords + |Contents(q)|
  {
    AppendRefines(cfg, q, e);
    NewestSurvives(cfg, q, e);
    EncodeOne(e);
    SizeSnoc(Contents(q), e);
    var both := Contents(q) + [e];
    assert both[0..] == both;
  }

  /** For every record that fills more than half of the budget: a push between the
      read and the ack of the first one drops it, and the ack then removes the second
      one, which was in no batch and is not counted as dropped. */
  lemma {:induction false} LossReachable(cfg: Config, decodes: Decoder, q: Queue, e: Payload) returns (f: Forwarder)
    requires SpoolQueue.Valid(cfg, q) && Contents(q) == [] && q.nextSequence + 1 < U64_MAX
    requires cfg.maxSegmentBytes <= cfg.maxBytes && RecordBytes(e) <= cfg.maxBytes < 2 * RecordBytes(e)
    ensures f == Run(cfg, decodes, q, [Push(e), Read, Push(e), Finish(Accepted)])
    ensures Contents(f.queue) == [] && f.log.head == 2 && !Handled(f.log, 1) && 1 !in f.log.dropped
  {
    InitiallyInv(cfg, decodes, q);
    var f0 := Initially(q);
    var none: seq<Event> := [];
    LossPush(cfg, decodes, f0, none, e);
    var one := none + [Push(e)];
    LossRead(cfg, decodes, f0, one, e);
    var two := one + [Read];
    LossPush(cfg, decodes, f0, two, e);
    var three := two + [Push(e)];
    LossAck(cfg, decodes, f0, three, e);
    FourEvents(Push(e), Read, Push(e), Finish(Accepted));
    f := RunFrom(cfg, decodes, f0, three + [Finish(Accepted)]);
  }

  lemma FourEvents(a: Event, b: Event, c: Event, d: Event)
    ensures [] + [a] + [b] + [c] + [d] == [a, b, c, d]
  {
  }

  lemma {:induction false} LossPush(cfg: Config, decodes: Decoder, f0: Forwarder, events: seq<Event>, e: Payload)
    requires cfg.maxSegmentBytes <= cfg.maxBytes && RecordBytes(e) <= cfg.maxBytes < 2 * RecordBytes(e)
    requires var f := RunFrom(cfg, decodes, f0, events);
             Inv(cfg, decodes, f) && f.queue.nextSequence < U64_MAX && (Contents(f.queue) == [] || Contents(f.queue) == [e])
    ensures var f, f' := RunFrom(cfg, decodes, f0, events), RunFrom(cfg, decodes, f0, events + [Push(e)]);
            && Inv(cfg, decodes, f') && Contents(f'.queue) == [e] && f'.inFlight == f.inFlight
            && f'.log.head == f.log.head + |Contents(f.queue)|
            && f'.queue.nextSequence <= f.queue.nextSequence + 1
  {
    var f := RunFrom(cfg, decodes, f0, events);
    RunSnoc(cfg, decodes, f0, events, Push(e));
    PushAlone(cfg, f.queue, e);
    AppendRefines(cfg, f.queue, e);
    PushKeepsInv(cfg, decodes, f, e);
  }

  lemma {:induction false} LossRead(cfg: Config, decodes: Decoder, f0: Forwarder, events: seq<Event>, e: Payload)
    requires var f := RunFrom(cfg, decodes, f0, events);
             Inv(cfg, decodes, f) && Contents(f.queue) == [e] && f.inFlight.None?
    ensures var f, f' := RunFrom(cfg, decodes, f0, events), RunFrom(cfg, decodes, f0, events + [Read]);
            && Inv(cfg, decodes, f') && f'.queue == f.queue && f'.log.head == f.log.head
            && f'.inFlight == Some(Batch([e], f.log.head))
  {
    var f := RunFrom(cfg, decodes, f0, events);
    RunSnoc(cfg, decodes, f0, events, Read);
    ReadKeepsInv(cfg, decodes, f);
    assert NextBatch(Contents(f.queue)) == [e];
  }

  lemma {:induction false} LossAck(cfg: Config, decodes: Decoder, f0: Forwarder, events: seq<Event>, e: Payload)
    requires var f := RunFrom(cfg, decodes, f0, events);
             && Inv(cfg, decodes, f) && Contents(f.queue) == [e] && f.log.head == 1
             && f.inFlight == Some(Batch([e], 0))
    ensures var f' := RunFrom(cfg, decodes, f0, events + [Finish(Accepted)]);
            Contents(f'.queue) == [] && f'.log.head == 2 && !Handled(f'.log, 1) && 1 !in f'.log.dropped
  {
    var f := RunFrom(cfg, decodes, f0, events);
    RunSnoc(cfg, decodes, f0, events, Finish(Accepted));
    AckAfterDrops(cfg, decodes, f, Accepted);
    AckRefines(cfg, f.queue, 1);
  }

  /** Three small records and a push, between their read and their ack, of one that
      fits beside one of them only: the ack of three is refused, since two records are
      left, and the third small record is sent once more. */
  lemma {:induction false} RepeatReachable(cfg: Config, decodes: Decoder, q: Queue, r: Payload, x: Payload)
    returns (f: Forwarder)
    requires SpoolQueue.Valid(cfg, q) && q.nextSequence < U64_MAX
    requires |q.segments| == 3 && forall i :: 0 <= i < 3 ==> q.segments[i].payloads == [r]
    requires decodes(r) && 3 * |r| <= BATCH_BYTES
    requires RecordBytes(r) + RecordBytes(x) <= cfg.maxBytes < 2 * RecordBytes(r) + RecordBytes(x)
    ensures f == Run(cfg, decodes, q, [Read, Push(x), Finish(Accepted), Read, Finish(Accepted)])
    ensures multiset(f.log.sent)[2] >= 2
  {
    InitiallyInv(cfg, decodes, q);
    FlatOnes(q.segments, r);
    var f0 := Initially(q);
    var f3 := RepeatStart(cfg, decodes, f0, r, x);
    SentAgain(cfg, decodes, f3);
    f := Round(cfg, decodes, f3);
    var three := [Read] + [Push(x)] + [Finish(Accepted)];
    RunSnoc(cfg, decodes, f0, three, Read);
    RunSnoc(cfg, decodes, f0, three + [Read], Finish(Accepted));
    FiveEvents(Read, Push(x), Finish(Accepted), Read, Finish(Accepted));
  }

  lemma FiveEvents(a: Event, b: Event, c: Event, d: Event, e: Event)
    ensures [a] + [b] + [c] + [d] + [e] == [a, b, c, d, e]
  {
  }

  lemma {:induction false} RepeatStart(cfg: Config, decodes: Decoder, f: Forwarder, r: Payload, x: Payload)
    returns (f3: Forwarder)
    requires Inv(cfg, decodes, f) && f.inFlight.None? && f.log.head == 0 && f.queue.nextSequence < U64_MAX
    requires |f.queue.segments| == 3 && forall i :: 0 <= i < 3 ==> f.queue.segments[i].payloads == [r]
    requires decodes(r) && 3 * |r| <= BATCH_BYTES
    requires RecordBytes(r) + RecordBytes(x) <= cfg.maxBytes < 2 * RecordBytes(r) + RecordBytes(x)
    ensures f3 == RunFrom(cfg, decodes, f, [Read] + [Push(x)] + [Finish(Accepted)])
    ensures Inv(cfg, decodes, f3) && f3.inFlight.None? && f3.log.head == 2 && 2 in f3.log.sent && |f3.log.stream| > 2
  {
    var f1 := RepeatRead(cfg, decodes, f, r);
    var f2 := RepeatPush(cfg, decodes, f1, r, x);
    f3 := RepeatAck(cfg, decodes, f2, r);
    RunSnoc(cfg, decodes, f, [], Read);
    assert [] + [Read] == [Read];
    RunSnoc(cfg, decodes, f, [Read], Push(x));
    RunSnoc(cfg, decodes, f, [Read] + [Push(x)], Finish(Accepted));
  }

  lemma {:induction false} RepeatRead(cfg: Config, decodes: Decoder, f: Forwarder, r: Payload) returns (f1: Forwarder)
    requires Inv(cfg, decodes, f) && f.inFlight.None? && f.log.head == 0
    requires |f.queue.segments| == 3 && forall i :: 0 <= i < 3 ==> f.queue.segments[i].payloads == [r]
    requires 3 * |r| <= BATCH_BYTES
    ensures f1 == Step(cfg, decodes, f, Read) && Inv(cfg, decodes, f1)
    ensures f1.queue == f.queue && f1.log == f.log && f1.inFlight == Some(Batch([r, r, r], 0))
  {
    FlatOnes(f.queue.segments, r);
    var c := Contents(f.queue);
    assert PayloadBytes([r]) == |r| + PayloadBytes([]);
    PayloadBytesConcat([r], [r]);
    PayloadBytesConcat([r] + [r], [r]);
    assert c[..3] == c == [r] + [r] + [r];
    assert BatchFits(c, 3, BATCH_RECORDS, BATCH_BYTES);
    ReadKeepsInv(cfg, decodes, f);
    f1 := StepRead(f);
  }

  lemma {:induction false} RepeatPush(cfg: Config, decodes: Decoder, f: Forwarder, r: Payload, x: Payload)
    returns (f1: Forwarder)
    requires Inv(cfg, decodes, f) && f.log.head == 0 && f.queue.nextSequence < U64_MAX
    requires |f.queue.segments| == 3 && forall i :: 0 <= i < 3 ==> f.queue.segments[i].payloads == [r]
    requires RecordBytes(r) + RecordBytes(x) <= cfg.maxBytes < 2 * RecordBytes(r) + RecordBytes(x)
    ensures f1 == Step(cfg, decodes, f, Push(x)) && Inv(cfg, decodes, f1)
    ensures f1.inFlight == f.inFlight && f1.log.head == 2 && |Contents(f1.queue)| == 2
  {
    PushDropsTwo(cfg, f.queue, r, x);
    PushKeepsInv(cfg, decodes, f, x);
    f1 := StepPush(cfg, f, x);
  }

  lemma {:induction false} RepeatAck(cfg: Config, decodes: Decoder, f: Forwarder, r: Payload) returns (f1: Forwarder)
    requires Inv(cfg, decodes, f) && f.inFlight == Some(Batch([r, r, r], 0)) && decodes(r)
    requires f.log.head == 2 && |Contents(f.queue)| == 2
    ensures f1 == Step(cfg, decodes, f, Finish(Accepted)) && Inv(cfg, decodes, f1)
    ensures f1.inFlight.None? && f1.log.head == 2 && 2 in f1.log.sent && |f1.log.stream| > 2
  {
    AckRefines(cfg, f.queue, 3);
    FinishKeepsInv(cfg, decodes, f, Accepted);
    SentFromIff(decodes, [r, r, r], 0, 2);
    f1 := StepFinish(decodes, f, Accepted);
  }

  // ----- the forwarder on the real spool

  /** `decode_spooled_log_records`: the entries that decode, in order, and a
      count of the others. */
  method DecodeRecords(decodes: Decoder, records: seq<Payload>) returns (entries: seq<Payload>, errors: nat)
    ensures |entries| == |SentFrom(decodes, records, 0)|
    ensures forall i :: 0 <= i < |entries| ==>
                          SentFrom(decodes, records, 0)[i] < |records| &&
                          entries[i] == records[SentFrom(decodes, records, 0)[i]]
    ensures errors == |records| - |entries|
  {
    entries, errors := [], 0;
    var k := 0;
    assert records[..0] == [];
    while k < |records|
      invariant 0 <= k <= |records|
      invariant |entries| == |SentFrom(decodes, records[..k], 0)|
      invariant forall i :: 0 <= i < |entries| ==>
                              SentFrom(decodes, records[..k], 0)[i] < k &&
                              entries[i] == records[SentFrom(decodes, records[..k], 0)[i]]
      invariant errors == k - |entries|
    {
      assert records[..k + 1] == records[..k] + [records[k]];
      SentFromSnoc(decodes, records[..k], records[k], 0);
      if decodes(records[k]) {
        entries := entries + [records[k]];
      } else {
        errors := errors + 1;
      }
      k := k + 1;
    }
    assert records[..k] == records;
  }

  lemma {:induction false} SentFromSnoc(decodes: Decoder, records: seq<Payload>, p: Payload, at: nat)
    ensures SentFrom(decodes, records + [p], at)
         == SentFrom(decodes, records, at) + (if decodes(p) then [at + |records|] else [])
  {
    if records == [] {
      assert records + [p] == [p];
      assert SentFrom(decodes, [p], at) == (if decodes(p) then [at] else []) + SentFrom(decodes, [], at + 1);
    } else {
      var tail := records[1..];
      assert (records + [p])[1..] == tail + [p];
      SentFromSnoc(decodes, tail, p, at + 1);
      var first, rest := if decodes(records[0]) then [at] else [], SentFrom(decodes, tail, at + 1);
      var last := if decodes(p) then [at + |records|] else [];
      assert first + (rest + last) == first + rest + last;
    }
  }

  lemma {:induction false} SentFromShift(decodes: Decoder, records: seq<Payload>, at: nat, at': nat)
    ensures |SentFrom(decodes, records, at)| == |SentFrom(decodes, records, at')|
  {
    if records != [] { SentFromShift(decodes, records[1..], at + 1, at' + 1); }
  }

  datatype DrainError = BatchNotAccepted | AckFailed(error: SpoolError)

  class LogForwarder {
    const spool: DiskSpool
    const decodes: Decoder
    /** The batch whose send is awaited; empty when none is. */
    var pending: seq<Payload>
    var pendingAck: nat
    ghost var state: Forwarder

    ghost predicate Valid()
      reads this, spool, spool.disk
    {
      Tied() && Inv(spool.config, decodes, state)
    }

    /** The spool and the pending batch are those of the state. */
    ghost predicate Tied()
      reads this, spool, spool.disk
    {
      && spool.Valid()
      && state.queue == spool.model
      && pendingAck == |pending|
      && (pending != [] <==> state.inFlight.Some?)
      && (state.inFlight.Some? ==> state.inFlight.value.records == pending)
    }

    /** A forwarder with nothing in flight, on a spool with this past. */
    constructor (spool: DiskSpool, decodes: Decoder, ghost past: Forwarder)
      requires spool.Valid() && past.queue == spool.model && past.inFlight.None?
      requires Inv(spool.config, decodes, past)
      ensures Valid() && pending == []
      ensures this.spool == spool && this.decodes == decodes && state == past
    {
      this.spool, this.decodes := spool, decodes;
      pending, pendingAck := [], 0;
      state := past;
    }

    method Push(entry: Payload) returns (r: Result<(), SpoolError>)
      requires Valid()
      modifies this, spool, spool.disk
      ensures Safe(spool.config, old(spool.model), OpAppend(entry)) ==> Valid()
      ensures state == StepPush(spool.config, old(state), entry) && state.queue == spool.model
      ensures r.Ok? <==> RecordBytes(entry) <= spool.config.maxBytes
    {
      if Safe(spool.config, spool.model, OpAppend(entry)) { PushKeepsInv(spool.config, decodes, state, entry); }
      r := AppendEntry(entry);
    }

    method AppendEntry(entry: Payload) returns (r: Result<(), SpoolError>)
      requires Tied()
      modifies this, spool, spool.disk
      ensures Safe(spool.config, old(spool.model), OpAppend(entry)) ==> Tied()
      ensures state == StepPush(spool.config, old(state), entry) && state.queue == spool.model
      ensures r.Ok? <==> RecordBytes(entry) <= spool.config.maxBytes
    {
      r := spool.AppendBytes(entry);
      state := StepPush(spool.config, state, entry);
    }

    /** The part of `drain_once` before the send is awaited. */
    method StartDrain()
      requires Valid() && pending == []
      modifies this
      ensures Valid()
      ensures state == StepRead(old(state))
    {
      ReadKeepsInv(spool.config, decodes, state);
      TakeBatch();
    }

    method TakeBatch()
      requires Tied() && pending == []
      modifies this
      ensures Tied() && state == StepRead(old(state))
    {
      pending, pendingAck := spool.ReadBatch(BATCH_RECORDS, BATCH_BYTES);
      ghost var all := Contents(spool.model);
      assert |pending| == BatchLength(all, 0);
      state := StepRead(state);
    }

    /** The part of `drain_once` after it: it fails when the batch was not accepted
        and when the ack was refused. */
    method FinishDrain(reply: Reply) returns (r: Result<(), DrainError>)
      requires Valid() && pending != []
      modifies this, spool, spool.disk
      ensures Valid() && pending == []
      ensures state == StepFinish(decodes, old(state), reply)
      ensures r == if !Completes(decodes, old(state).inFlight.value, reply) then Err(BatchNotAccepted)
                   else if |old(pending)| > |Contents(old(state).queue)| then Err(AckFailed(AckTooLarge))
                   else Ok(())
    {
      FinishKeepsInv(spool.config, decodes, state, reply);
      r := FinishBatch(reply);
    }

    method FinishBatch(reply: Reply) returns (r: Result<(), DrainError>)
      requires Tied() && pending != []
      modifies this, spool, spool.disk
      ensures Tied() && pending == []
      ensures state == StepFinish(decodes, old(state), reply)
      ensures r == if !Completes(decodes, old(state).inFlight.value, reply) then Err(BatchNotAccepted)
                   else if |old(pending)| > |Contents(old(state).queue)| then Err(AckFailed(AckTooLarge))
                   else Ok(())
    {
      ghost var b, next := state.inFlight.value, StepFinish(decodes, state, reply);
      FinishQueue(decodes, state, reply);
      var entries, _ := DecodeRecords(decodes, pending);
      SentFromShift(decodes, pending, 0, b.at);
      if entries == [] || reply.Accepted? {
        r := AckPending();
      } else {
        r := Err(BatchNotAccepted);
      }
      pending, pendingAck := [], 0;
      state := next;
    }

    method AckPending() returns (r: Result<(), DrainError>)
      requires spool.Valid() && pendingAck == |pending|
      modifies spool, spool.disk
      ensures spool.Valid()
      ensures match Ack(old(spool.model), |pending|)
              case Ok(q) => r == Ok(()) && spool.model == q
              case Err(_) => spool.model == old(spool.model)
      ensures r == if |pending| > |Contents(old(spool.model))| then Err(AckFailed(AckTooLarge)) else Ok(())
    {
      AckRefines(spool.config, spool.model, |pending|);
      var acked := spool.AckRecords(pendingAck);
      r := if acked.Ok? then Ok(()) else Err(AckFailed(acked.error));
    }
  }

  /** The queue a drain leaves. */
  lemma FinishQueue(decodes: Decoder, f: Forwarder, reply: Reply)
    requires f.inFlight.Some?
    ensures var b, f' := f.inFlight.value, StepFinish(decodes, f, reply);
            && f'.inFlight.None?
            && f'.queue == if Completes(decodes, b, reply) && Ack(f.queue, |b.records|).Ok?
                           then Ack(f.queue, |b.records|).value else f.queue
  {
  }

  /** A new process opens the same directory and goes on. */
  method RestartForwarder(stopped: LogForwarder, handedOver: bool) returns (again: LogForwarder)
    requires stopped.Valid()
    modifies stopped.spool.disk
    ensures fresh(again) && again.Valid() && again.pending == []
    ensures again.spool.config == stopped.spool.config && again.spool.disk == stopped.spool.disk
    ensures again.decodes == stopped.decodes
    ensures again.state == StepRestart(stopped.spool.config, stopped.decodes, old(stopped.state), handedOver)
  {
    ghost var past := StepRestart(stopped.spool.config, stopped.decodes, stopped.state, handedOver);
    RestartKeepsInv(stopped.spool.config, stopped.decodes, stopped.state, handedOver);
    DirectoryOfValid(stopped.spool.disk.files, stopped.spool.model, stopped.spool.config);
    var restarted, _ := Open(stopped.spool.config, stopped.spool.disk);
    again := new LogForwarder(restarted.value, stopped.decodes, past);
  }
}
