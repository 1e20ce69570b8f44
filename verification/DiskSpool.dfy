/** The spool as the program runs it: segment files on a disk, with cached byte
    and record counters, refining the queue of module SpoolQueue. */
module DiskSpools {
  import opened Basics
  import opened SpoolFraming
  import opened SpoolQueue

  /** The spool directory: file contents by sequence number. */
  class Disk {
    var files: map<nat, seq<byte>>

    constructor (files: map<nat, seq<byte>>)
      ensures this.files == files
    {
      this.files := files;
    }
  }

  /** What the program caches about a segment file. */
  datatype Meta = Meta(sequence: nat, bytes: nat, records: nat)

  ghost function MetaOf(s: Segment): Meta { Meta(s.sequence, Size(s.payloads), |s.payloads|) }

  ghost function Metas(segments: seq<Segment>): seq<Meta>
  {
    seq(|segments|, i requires 0 <= i < |segments| => MetaOf(segments[i]))
  }

  /** The directory that holds exactly these segments. */
  ghost function FilesOf(segments: seq<Segment>): map<nat, seq<byte>>
  {
    if segments == [] then map[]
    else FilesOf(segments[1..])[segments[0].sequence := Encode(segments[0].payloads)]
  }

  ghost predicate SegmentsFit(segments: seq<Segment>)
  {
    forall i :: 0 <= i < |segments| ==> AllFit(segments[i].payloads)
  }

  /** The segments a directory of whole frames holds, in sequence order. */
  ghost predicate Holds(files: map<nat, seq<byte>>, segments: seq<Segment>)
  {
    Increasing(segments) && SegmentsFit(segments) && FilesOf(segments) == files
  }

  /** A directory of segment files, each made of complete frames. */
  ghost predicate WholeDisk(files: map<nat, seq<byte>>)
  {
    forall k :: k in files ==> k <= U64_MAX && |files[k]| <= U64_MAX && WholeFrames(files[k])
  }

  function Last<T>(s: seq<T>): T
    requires s != []
  {
    s[|s| - 1]
  }

  /** The sequence numbers of segments. */
  ghost function Numbers(segments: seq<Segment>): set<nat>
  {
    if segments == [] then {} else Numbers(segments[..|segments| - 1]) + {Last(segments).sequence}
  }

  lemma NumbersSnoc(segments: seq<Segment>, k: nat)
    requires k < |segments|
    ensures Numbers(segments[..k + 1]) == Numbers(segments[..k]) + {segments[k].sequence}
  {
    assert segments[..k + 1][..k] == segments[..k];
  }

  // ----- directories

  lemma {:induction false} FilesKeys(segments: seq<Segment>, k: nat)
    ensures k in FilesOf(segments) <==> exists i :: 0 <= i < |segments| && segments[i].sequence == k
  {
    if segments != [] {
      FilesKeys(segments[1..], k);
      if k in FilesOf(segments[1..]) {
        var i :| 0 <= i < |segments[1..]| && segments[1..][i].sequence == k;
        assert segments[i + 1].sequence == k;
      }
      forall i | 0 <= i < |segments| && segments[i].sequence == k
        ensures k in FilesOf(segments)
      {
        if i > 0 { assert segments[1..][i - 1].sequence == k; }
      }
    }
  }

  lemma HeadFile(segments: seq<Segment>)
    requires segments != [] && Increasing(segments)
    ensures segments[0].sequence !in FilesOf(segments[1..])
    ensures FilesOf(segments) - {segments[0].sequence} == FilesOf(segments[1..])
  {
    FilesKeys(segments[1..], segments[0].sequence);
  }

  lemma FilesCons(s: Segment, rest: seq<Segment>)
    ensures FilesOf([s] + rest) == FilesOf(rest)[s.sequence := Encode(s.payloads)]
  {
    assert ([s] + rest)[1..] == rest;
  }

  lemma WritesCommute(files: map<nat, seq<byte>>, k: nat, v: seq<byte>, l: nat, w: seq<byte>)
    requires k != l
    ensures files[k := v][l := w] == files[l := w][k := v]
  {
  }

  lemma SplitFirst(a: seq<Segment>, s: Segment, b: seq<Segment>)
    requires a != []
    ensures a + [s] + b == [a[0]] + (a[1..] + [s] + b) && a + b == [a[0]] + (a[1..] + b)
  {
    assert a == [a[0]] + a[1..];
  }

  /** Writing the file of a segment between others with different numbers. */
  lemma {:induction false} InsertFile(a: seq<Segment>, s: Segment, b: seq<Segment>)
    requires forall i :: 0 <= i < |a| ==> a[i].sequence != s.sequence
    ensures FilesOf(a + [s] + b) == FilesOf(a + b)[s.sequence := Encode(s.payloads)]
  {
    if a == [] {
      assert a + [s] + b == [s] + b && a + b == b;
      FilesCons(s, b);
    } else {
      InsertFile(a[1..], s, b);
      SplitFirst(a, s, b);
      FilesCons(a[0], a[1..] + [s] + b);
      FilesCons(a[0], a[1..] + b);
      WritesCommute(FilesOf(a[1..] + b), s.sequence, Encode(s.payloads), a[0].sequence, Encode(a[0].payloads));
    }
  }

  lemma {:induction false} FileAt(segments: seq<Segment>, i: nat)
    requires Increasing(segments) && i < |segments|
    ensures segments[i].sequence in FilesOf(segments)
    ensures FilesOf(segments)[segments[i].sequence] == Encode(segments[i].payloads)
  {
    if i > 0 {
      FileAt(segments[1..], i - 1);
    }
  }

  /** A directory holds only one list of segments. */
  lemma {:induction false} HoldsUnique(files: map<nat, seq<byte>>, a: seq<Segment>, b: seq<Segment>)
    requires Holds(files, a) && Holds(files, b)
    ensures a == b
    decreases |a|
  {
    if a == [] {
      if b != [] {
        FilesKeys(b, b[0].sequence);
        assert false;
      }
    } else {
      FilesKeys(a, a[0].sequence);
      FilesKeys(b, a[0].sequence);
      FilesKeys(b, b[0].sequence);
      FilesKeys(a, b[0].sequence);
      assert a[0].sequence == b[0].sequence;
      FileAt(a, 0);
      FileAt(b, 0);
      assert Encode(a[0].payloads) + [] == Encode(a[0].payloads);
      ParseEncode(a[0].payloads, []);
      assert Encode(b[0].payloads) + [] == Encode(b[0].payloads);
      ParseEncode(b[0].payloads, []);
      HeadFile(a);
      HeadFile(b);
      HoldsUnique(files - {a[0].sequence}, a[1..], b[1..]);
      assert a == [a[0]] + a[1..];
    }
  }

  lemma {:induction false} SegmentsFitFlat(segments: seq<Segment>)
    ensures SegmentsFit(segments) <==> AllFit(Flat(segments))
  {
    if segments != [] {
      SegmentsFitFlat(segments[1..]);
      var head, rest := segments[0].payloads, Flat(segments[1..]);
      if AllFit(Flat(segments)) {
        AllFitSlice(head + rest, |head|);
        assert (head + rest)[..|head|] == head && (head + rest)[|head|..] == rest;
        assert forall i :: 1 <= i < |segments| ==> segments[i] == segments[1..][i - 1];
      }
      if SegmentsFit(segments) {
        assert forall i :: 0 <= i < |segments[1..]| ==> segments[1..][i] == segments[i + 1];
      }
    }
  }

  // ----- one budget step

  /** Dropping one more head segment. */
  lemma DropHeadStep(q: Queue, k: nat)
    requires k < |q.segments|
    ensures var a, b := DropHead(q, k), DropHead(q, k + 1);
            && a.segments[1..] == b.segments
            && b.droppedRecords == a.droppedRecords + |q.segments[k].payloads|
            && b.droppedBytes == a.droppedBytes + Size(q.segments[k].payloads)
            && |Contents(a)| == |q.segments[k].payloads| + |Contents(b)|
            && Bytes(a) == Size(q.segments[k].payloads) + Bytes(b)
  {
    assert q.segments[..k + 1] == q.segments[..k] + [q.segments[k]];
    FlatConcat(q.segments[..k], [q.segments[k]]);
    FlatOne(q.segments[k]);
    var tail := q.segments[k..];
    assert tail[1..] == q.segments[k + 1..];
    EncodeConcat(tail[0].payloads, Flat(tail[1..]));
  }

  lemma DropNone(q: Queue)
    ensures DropHead(q, 0) == q && Numbers(q.segments[..0]) == {}
  {
    assert q.segments[0..] == q.segments && q.segments[..0] == [];
    assert Size(Flat([])) == 0;
  }

  /** The loop goes on exactly until enough segments are dropped. */
  lemma DropMore(cfg: Config, q: Queue, k: nat)
    requires k <= DropCount(cfg, q.segments)
    ensures Bytes(DropHead(q, k)) > cfg.maxBytes ==> k < DropCount(cfg, q.segments)
    ensures Bytes(DropHead(q, k)) <= cfg.maxBytes || k == |q.segments| ==> k == DropCount(cfg, q.segments)
  {
  }

  lemma MetasTail(segments: seq<Segment>)
    requires segments != []
    ensures Metas(segments)[1..] == Metas(segments[1..])
  {
  }

  /** The records up to and including segment `i`. */
  lemma {:induction false} FlatThrough(segments: seq<Segment>, i: nat)
    requires i < |segments|
    ensures Flat(segments[..i + 1]) == Flat(segments[..i]) + segments[i].payloads
    ensures Flat(segments[..i]) + segments[i].payloads <= Flat(segments)
  {
    FlatSplit(segments, i + 1);
    assert segments[..i + 1] == segments[..i] + [segments[i]];
    FlatConcat(segments[..i], [segments[i]]);
    FlatOne(segments[i]);
  }

  /** A batch still being filled: a prefix of the queue with room for more. */
  ghost predicate StillOpen(all: seq<Payload>, batch: seq<Payload>, payloadBytes: nat,
                            maxRecords: nat, maxPayloadBytes: nat)
  {
    && |batch| < maxRecords
    && batch <= all
    && payloadBytes == PayloadBytes(batch)
    && (|batch| <= 1 || payloadBytes <= maxPayloadBytes)
  }

  /** Adds the payloads of one segment to the batch until a limit stops it. */
  method TakeFrom(payloads: seq<Payload>, start: seq<Payload>, startBytes: nat, maxRecords: nat,
                  maxPayloadBytes: nat, ghost all: seq<Payload>)
    returns (batch: seq<Payload>, payloadBytes: nat, full: bool)
    requires start + payloads <= all
    requires StillOpen(all, start, startBytes, maxRecords, maxPayloadBytes)
    ensures batch <= all
    ensures full ==> LongestBatch(all, |batch|, maxRecords, maxPayloadBytes)
    ensures !full ==> batch == start + payloads
    ensures !full ==> StillOpen(all, batch, payloadBytes, maxRecords, maxPayloadBytes)
  {
    batch, payloadBytes := start, startBytes;
    var j := 0;
    while j < |payloads|
      invariant 0 <= j <= |payloads|
      invariant batch == start + payloads[..j]
      invariant StillOpen(all, batch, payloadBytes, maxRecords, maxPayloadBytes)
    {
      var payload := payloads[j];
      TakenNext(start, payloads, j, all);
      TakeStep(all, batch, payloadBytes, payload, maxRecords, maxPayloadBytes);
      if batch != [] && (|batch| >= maxRecords || payloadBytes + |payload| > maxPayloadBytes) {
        return batch, payloadBytes, true;
      }
      payloadBytes := payloadBytes + |payload|;
      batch := batch + [payload];
      if |batch| >= maxRecords {
        return batch, payloadBytes, true;
      }
      j := j + 1;
    }
    assert payloads[..j] == payloads;
    full := false;
  }

  lemma TakenNext(start: seq<Payload>, payloads: seq<Payload>, j: nat, all: seq<Payload>)
    requires j < |payloads| && start + payloads <= all
    ensures start + payloads[..j] + [payloads[j]] == start + payloads[..j + 1]
    ensures start + payloads[..j] + [payloads[j]] <= all
  {
    assert payloads[..j + 1] == payloads[..j] + [payloads[j]];
  }

  /** One more payload: the batch cannot take it, or it is then full, or still open. */
  lemma TakeStep(all: seq<Payload>, batch: seq<Payload>, payloadBytes: nat, payload: Payload,
                 maxRecords: nat, maxPayloadBytes: nat)
    requires StillOpen(all, batch, payloadBytes, maxRecords, maxPayloadBytes) && batch + [payload] <= all
    ensures if batch != [] && payloadBytes + |payload| > maxPayloadBytes
            then LongestBatch(all, |batch|, maxRecords, maxPayloadBytes)
            else if |batch| + 1 >= maxRecords then LongestBatch(all, |batch| + 1, maxRecords, maxPayloadBytes)
            else StillOpen(all, batch + [payload], payloadBytes + |payload|, maxRecords, maxPayloadBytes)
  {
    var n := |batch|;
    assert all[..n] == batch && all[..n + 1] == batch + [payload];
    PayloadBytesSnoc(batch, payload);
    if batch != [] && payloadBytes + |payload| > maxPayloadBytes {
      StoppedIsLongest(all, n, maxRecords, maxPayloadBytes);
    } else if n + 1 >= maxRecords {
      StoppedIsLongest(all, n + 1, maxRecords, maxPayloadBytes);
    }
  }

  lemma PayloadBytesSnoc(batch: seq<Payload>, payload: Payload)
    ensures PayloadBytes(batch + [payload]) == PayloadBytes(batch) + |payload|
  {
    PayloadBytesConcat(batch, [payload]);
    assert PayloadBytes([payload]) == |payload| + PayloadBytes([]);
  }

  // ----- the cached state of a queue

  datatype Cache = Cache(segments: seq<Meta>, bytes: nat, records: nat, nextSequence: nat,
                         droppedRecords: nat, droppedBytes: nat)

  ghost function CacheOf(q: Queue): Cache
  {
    Cache(Metas(q.segments), Bytes(q), |Contents(q)|, q.nextSequence, q.droppedRecords, q.droppedBytes)
  }

  /** Without its head segment. */
  lemma {:induction false} TailCache(q: Queue)
    requires q.segments != []
    ensures var head, c := MetaOf(q.segments[0]), CacheOf(q);
            && c.segments != [] && c.segments[0] == head && head.bytes <= c.bytes && head.records <= c.records
            && CacheOf(q.(segments := q.segments[1..]))
               == c.(segments := c.segments[1..], bytes := c.bytes - head.bytes, records := c.records - head.records)
  {
    MetasTail(q.segments);
    EncodeConcat(q.segments[0].payloads, Flat(q.segments[1..]));
  }

  /** With a new, empty segment. */
  lemma {:induction false} NewSegmentCache(q: Queue, next: nat)
    ensures var c := CacheOf(q);
            CacheOf(q.(segments := q.segments + [Segment(q.nextSequence, [])], nextSequence := next))
            == c.(segments := c.segments + [Meta(q.nextSequence, 0, 0)], nextSequence := next)
  {
    NewSegmentMetas(q.segments, q.nextSequence);
    FlatSnoc(q.segments, Segment(q.nextSequence, []));
    assert Flat(q.segments) + [] == Flat(q.segments);
  }

  /** With one more record in the last segment. */
  lemma {:induction false} GrowLastCache(q: Queue, p: Payload)
    requires q.segments != []
    ensures var c, n := CacheOf(q), |q.segments|;
            && |c.segments| == n
            && var last := c.segments[n - 1];
            CacheOf(GrowLast(q, p))
            == c.(segments := c.segments[..n - 1] + [Meta(last.sequence, last.bytes + RecordBytes(p), last.records + 1)],
                  bytes := c.bytes + RecordBytes(p), records := c.records + 1)
  {
    GrowLastRefines(q, p);
    GrowLastMetas(q, p);
  }

  /** Without the first records of its head segment. */
  lemma {:induction false} AckedHeadCache(q: Queue, skip: nat)
    requires q.segments != [] && Increasing(q.segments) && SegmentsFit(q.segments)
    requires 0 < skip < |q.segments[0].payloads|
    ensures var c, kept := CacheOf(q), MetaOf(Segment(q.segments[0].sequence, q.segments[0].payloads[skip..]));
            && c.segments != [] && kept.bytes <= c.segments[0].bytes
            && c.segments[0].bytes - kept.bytes <= c.bytes && skip <= c.records
            && CacheOf(q.(segments := AckSegments(q.segments, skip)))
               == c.(segments := [kept] + c.segments[1..],
                     bytes := c.bytes - (c.segments[0].bytes - kept.bytes), records := c.records - skip)
  {
    AckedHead(q.segments, skip);
    AckedHeadShape(q.segments, skip);
    var head := q.segments[0].payloads;
    EncodeConcat(head[..skip], head[skip..]);
    assert head[..skip] + head[skip..] == head;
  }

  class DiskSpool {
    const config: Config
    const disk: Disk

    var segments: seq<Meta>
    var bytes: nat
    var records: nat
    var nextSequence: nat
    var droppedRecords: nat
    var droppedBytes: nat

    /** The queue this spool stands for. */
    ghost var model: Queue

    /** The files are those of the model. */
    ghost predicate Filed()
      reads this, disk
    {
      disk.files == FilesOf(model.segments) && Increasing(model.segments) && SegmentsFit(model.segments)
    }

    /** The files and the cached counters say what the model says. */
    ghost predicate Represents()
      reads this, disk
    {
      Counted() && Filed()
    }

    /** The cached counters say what the model says. */
    ghost predicate Counted()
      reads this
    {
      Cache(segments, bytes, records, nextSequence, droppedRecords, droppedBytes) == CacheOf(model)
    }

    ghost predicate Valid()
      reads this, disk
    {
      Represents() && SpoolQueue.Valid(config, model)
    }

    constructor Loaded(config: Config, disk: Disk, segments: seq<Meta>, bytes: nat, records: nat,
                       nextSequence: nat, ghost loaded: seq<Segment>)
      requires Holds(disk.files, loaded)
      requires segments == Metas(loaded)
      requires bytes == Size(Flat(loaded)) && records == |Flat(loaded)|
      requires nextSequence == Load(loaded).nextSequence
      ensures Represents() && model == Load(loaded)
      ensures this.config == config && this.disk == disk
    {
      this.config, this.disk := config, disk;
      this.segments, this.bytes, this.records := segments, bytes, records;
      this.nextSequence, this.droppedRecords, this.droppedBytes := nextSequence, 0, 0;
      model := Load(loaded);
    }

    /** Deletes the head segment and takes it out of the totals. */
    method RemoveHead()
      requires Counted() && segments != []
      modifies this, disk
      ensures Counted() && (old(Filed()) ==> Filed())
      ensures model == old(model).(segments := old(model).segments[1..])
      ensures segments == old(segments)[1..]
      ensures disk.files == old(disk.files) - {old(segments)[0].sequence}
    {
      TailCache(model);
      if Filed() { HeadFile(model.segments); }
      var head := segments[0];
      disk.files := disk.files - {head.sequence};
      bytes := bytes - head.bytes;
      records := records - head.records;
      segments := segments[1..];
      model := model.(segments := model.segments[1..]);
    }

    /** Removes the head segment and counts it as dropped. */
    method DropOne(ghost q: Queue, ghost k: nat, ghost files: map<nat, seq<byte>>)
      requires Counted() && segments != [] && k < |q.segments| && model == DropHead(q, k)
      requires disk.files == files - Numbers(q.segments[..k])
      modifies this, disk
      ensures Counted() && (old(Filed()) ==> Filed())
      ensures model == DropHead(q, k + 1) && |segments| == |old(segments)| - 1
      ensures disk.files == files - Numbers(q.segments[..k + 1])
    {
      NumbersSnoc(q.segments, k);
      DropHeadStep(q, k);
      var head := segments[0];
      RemoveHead();
      droppedBytes := droppedBytes + head.bytes;
      droppedRecords := droppedRecords + head.records;
      model := DropHead(q, k + 1);
    }

    /** Removes head segments while the total exceeds the budget. */
    method EnforceBudget()
      requires Counted()
      modifies this, disk
      ensures Counted() && (old(Filed()) ==> Filed())
      ensures model == Enforce(config, old(model))
      ensures disk.files == old(disk.files) - Numbers(old(model).segments[..DropCount(config, old(model).segments)])
    {
      ghost var q, files, filed := model, disk.files, Filed();
      ghost var k := 0;
      DropNone(q);
      while bytes > config.maxBytes && segments != []
        invariant 0 <= k <= DropCount(config, q.segments)
        invariant model == DropHead(q, k)
        invariant Counted() && (filed ==> Filed())
        invariant disk.files == files - Numbers(q.segments[..k])
        decreases |segments|
      {
        DropMore(config, q, k);
        DropOne(q, k, files);
        k := k + 1;
      }
      DropMore(config, q, k);
    }

    /** Appends a record, opening a new segment when the last one is full. The cached
        state follows the queue; the files do unless a number in use is handed out,
        and are what the two writes and the deletions make of them. */
    method AppendBytes(payload: Payload) returns (r: Result<(), SpoolError>)
      requires Valid()
      modifies this, disk
      ensures Counted() && (Safe(config, old(model), OpAppend(payload)) ==> Valid())
      ensures r == if RecordBytes(payload) > config.maxBytes then Err(RecordTooLarge) else Ok(())
      ensures r.Err? ==> model == old(model) && disk.files == old(disk.files)
      ensures r.Ok? ==> Append(config, old(model), payload) == Ok(model)
      ensures r.Ok? ==> FiledAs(old(model), old(disk.files), payload)
    {
      var recordBytes := RecordBytes(payload);
      if recordBytes > config.maxBytes {
        return Err(RecordTooLarge);
      }
      StoreRecord(payload);
      r := Ok(());
    }

    /** The files are what the two writes and the deletions of an append leave. */
    ghost predicate FiledAs(before: Queue, files: map<nat, seq<byte>>, payload: Payload)
      reads this, disk
    {
      && (before.segments != [] ==> Last(before.segments).sequence in files)
      && var pushed := Push(config, before, payload).segments;
      disk.files == Written(config, before, files, payload) - Numbers(pushed[..DropCount(config, pushed)])
    }

    /** The writes of an append that is accepted, and the deletions. */
    method StoreRecord(payload: Payload)
      requires Valid() && RecordBytes(payload) <= config.maxBytes
      modifies this, disk
      ensures Counted() && (!Reuses(config, old(model), RecordBytes(payload)) ==> Valid())
      ensures model == Enforce(config, Push(config, old(model), payload))
      ensures FiledAs(old(model), old(disk.files), payload)
    {
      AppendRefines(config, model, payload);
      WriteRecord(payload);
      EnforceBudget();
    }

    /** The two writes of an append. */
    method WriteRecord(payload: Payload)
      requires Valid() && Fits(payload)
      modifies this, disk
      ensures Counted() && (!Reuses(config, old(model), RecordBytes(payload)) ==> Filed())
      ensures model == Push(config, old(model), payload)
      ensures old(model).segments != [] ==> Last(old(model).segments).sequence in old(disk.files)
      ensures disk.files == Written(config, old(model), old(disk.files), payload)
    {
      if model.segments != [] { FileAt(model.segments, |model.segments| - 1); }
      ghost var q, files := model, disk.files;
      PrepareSegment(RecordBytes(payload));
      ghost var prepared, last := disk.files, Last(segments).sequence;
      AppendRecord(payload);
      WrittenTwice(config, q, files, prepared, last, payload);
    }

    /** Makes the last segment one with room for the record, creating, and so
        emptying, the file of the next number where there is none. */
    method PrepareSegment(recordBytes: nat)
      requires Valid()
      modifies this, disk
      ensures Counted() && (!Reuses(config, old(model), recordBytes) ==> Filed())
      ensures model == WithRoom(config, old(model), recordBytes)
      ensures segments != []
      ensures PreparedFor(config, old(model), recordBytes, old(disk.files), disk.files, Last(segments).sequence)
    {
      var n := |segments|;
      if n == 0 || segments[n - 1].bytes + recordBytes > Max(config.maxSegmentBytes, recordBytes) {
        if !Reuses(config, model, recordBytes) { NewestNumber(model); }
        CreateSegment();
      } else {
        FileAt(model.segments, n - 1);
      }
    }

    /** Creates the file of the next number. */
    method CreateSegment()
      requires Counted()
      modifies this, disk
      ensures Counted()
      ensures old(Filed()) && (forall i :: 0 <= i < |old(model).segments| ==> old(model).segments[i].sequence < old(nextSequence))
              ==> Filed()
      ensures model == old(model).(segments := old(model).segments + [Segment(old(nextSequence), [])],
                                   nextSequence := SaturatingSucc(old(nextSequence)))
      ensures segments == old(segments) + [Meta(old(nextSequence), 0, 0)]
      ensures disk.files == old(disk.files)[old(nextSequence) := []]
    {
      if Filed() && forall i :: 0 <= i < |model.segments| ==> model.segments[i].sequence < nextSequence {
        NewSegmentShape(model.segments, nextSequence);
      }
      NewSegmentCache(model, SaturatingSucc(nextSequence));
      disk.files := disk.files[nextSequence := []];
      segments := segments + [Meta(nextSequence, 0, 0)];
      model := model.(segments := model.segments + [Segment(nextSequence, [])],
                      nextSequence := SaturatingSucc(nextSequence));
      nextSequence := SaturatingSucc(nextSequence);
    }

    /** Writes one frame at the end of the last segment file. */
    method AppendRecord(payload: Payload)
      requires Counted() && segments != [] && Last(segments).sequence in disk.files
      requires Fits(payload)
      modifies this, disk
      ensures Counted() && (old(Filed()) ==> Filed())
      ensures model == GrowLast(old(model), payload)
      ensures var last := Last(old(segments)).sequence;
              disk.files == old(disk.files)[last := old(disk.files)[last] + Frame(payload)]
    {
      if Filed() { GrowLastFiled(model, payload); }
      AppendFrame(payload);
    }

    method AppendFrame(payload: Payload)
      requires Counted() && segments != [] && Last(segments).sequence in disk.files
      modifies this, disk
      ensures Counted() && model == GrowLast(old(model), payload)
      ensures var last := Last(old(segments)).sequence;
              disk.files == old(disk.files)[last := old(disk.files)[last] + Frame(payload)]
    {
      GrowLastCache(model, payload);
      var n := |segments|;
      var meta := segments[n - 1];
      disk.files := disk.files[meta.sequence := disk.files[meta.sequence] + Frame(payload)];
      segments := segments[..n - 1] +
      [Meta(meta.sequence, meta.bytes + RecordBytes(payload), meta.records + 1)];
      bytes := bytes + RecordBytes(payload);
      records := records + 1;
      model := GrowLast(model, payload);
    }

    /** Reads a batch from the head without removing it. */
    method ReadBatch(maxRecords: nat, maxPayloadBytes: nat) returns (batch: seq<Payload>, ack: nat)
      requires Valid()
      ensures LongestBatch(Contents(model), |batch|, maxRecords, maxPayloadBytes)
      ensures batch == Contents(model)[..|batch|]
      ensures ack == |batch|
    {
      ghost var all := Contents(model);
      batch := [];
      if maxRecords == 0 {
        return [], 0;
      }
      var payloadBytes, full := 0, false;
      var i := 0;
      while i < |segments|
        invariant 0 <= i <= |segments|
        invariant batch == Flat(model.segments[..i])
        invariant StillOpen(all, batch, payloadBytes, maxRecords, maxPayloadBytes)
      {
        ghost var seg := model.segments[i];
        FileAt(model.segments, i);
        assert Encode(seg.payloads) + [] == Encode(seg.payloads);
        ParseEncode(seg.payloads, []);
        var parsed := ReadSegmentPayloads(disk.files[segments[i].sequence]);
        FlatThrough(model.segments, i);
        batch, payloadBytes, full :=
          TakeFrom(parsed.value, batch, payloadBytes, maxRecords, maxPayloadBytes, all);
        if full {
          return batch, |batch|;
        }
        i := i + 1;
      }
      assert model.segments[..i] == model.segments;
      assert all[..|batch|] == batch;
      StoppedIsLongest(all, |batch|, maxRecords, maxPayloadBytes);
      ack := |batch|;
    }

    /** Removes `count` records from the head, rewriting a half-acked segment. */
    method AckRecords(count: nat) returns (r: Result<(), SpoolError>)
      requires Valid()
      modifies this, disk
      ensures Valid()
      ensures match Ack(old(model), count)
              case Ok(q) => r == Ok(()) && model == q
              case Err(e) => r == Err(e) && model == old(model)
    {
      AckRefines(config, model, count);
      if count == 0 {
        return Ok(());
      }
      if count > records {
        return Err(AckTooLarge);
      }
      ghost var q := model;
      var toAck: nat := count;
      while toAck > 0 && segments != []
        invariant Represents()
        invariant model == q.(segments := model.segments)
        invariant AckSegments(model.segments, toAck) == AckSegments(q.segments, count)
        invariant toAck <= |Contents(model)|
        decreases |segments| + toAck
      {
        var head := segments[0];
        if toAck >= head.records {
          RemoveHead();
          toAck := toAck - head.records;
        } else {
          RewriteHead(head, toAck);
          toAck := 0;
        }
      }
      r := Ok(());
    }

    /** Keeps all but the first `skip` records of the head segment. */
    method RewriteHead(head: Meta, skip: nat)
      requires Represents()
      requires segments != [] && head == segments[0]
      requires 0 < skip < head.records
      modifies this, disk
      ensures Represents()
      ensures model == old(model).(segments := AckSegments(old(model).segments, skip))
    {
      var file, newBytes, newRecords := KeptRecords(head, skip);
      AckedHead(model.segments, skip);
      AckedHeadShape(model.segments, skip);
      AckedHeadCache(model, skip);
      disk.files := disk.files[head.sequence := file];
      bytes := bytes - (head.bytes - newBytes);
      records := records - skip;
      segments := [Meta(head.sequence, newBytes, newRecords)] + segments[1..];
      model := model.(segments := AckSegments(model.segments, skip));
    }

    /** What is left of the head file without its first records. */
    method KeptRecords(head: Meta, skip: nat) returns (file: seq<byte>, newBytes: nat, newRecords: nat)
      requires Represents()
      requires segments != [] && head == segments[0] && skip < head.records
      ensures var kept := model.segments[0].payloads[skip..];
              file == Encode(kept) && newBytes == Size(kept) && newRecords == |kept|
    {
      FileAt(model.segments, 0);
      ghost var all := model.segments[0].payloads;
      assert Encode(all) + [] == Encode(all);
      ParseEncode(all, []);
      var parsed := ReadSegmentPayloads(disk.files[head.sequence]);
      file, newBytes, newRecords := WriteRecords(parsed.value[skip..]);
    }
  }

  /** Unless the last segment has it, the next number is above all in use. */
  lemma NewestNumber(q: Queue)
    requires Ordered(q) && (q.segments != [] ==> Last(q.segments).sequence != q.nextSequence)
    ensures forall i :: 0 <= i < |q.segments| ==> q.segments[i].sequence < q.nextSequence
  {
    var n := |q.segments|;
    assert forall i :: 0 <= i < n ==> q.segments[i].sequence <= q.segments[n - 1].sequence;
  }

  /** Creating the empty file of a new segment. */
  lemma {:induction false} NewSegmentShape(segments: seq<Segment>, sequence: nat)
    requires Increasing(segments) && SegmentsFit(segments)
    requires forall i :: 0 <= i < |segments| ==> segments[i].sequence < sequence
    ensures var after := segments + [Segment(sequence, [])];
            && Increasing(after) && SegmentsFit(after)
            && FilesOf(after) == FilesOf(segments)[sequence := []]
  {
    var s := Segment(sequence, []);
    InsertFile(segments, s, []);
    assert segments + [] == segments;
    assert segments + [s] + [] == segments + [s];
  }

  lemma NewSegmentMetas(segments: seq<Segment>, sequence: nat)
    ensures Metas(segments + [Segment(sequence, [])]) == Metas(segments) + [Meta(sequence, 0, 0)]
  {
    assert Size([]) == 0;
  }

  lemma {:induction false} GrowLastShape(q: Queue, p: Payload)
    requires q.segments != [] && Increasing(q.segments) && SegmentsFit(q.segments) && Fits(p)
    ensures Increasing(GrowLast(q, p).segments) && SegmentsFit(GrowLast(q, p).segments)
  {
    AllFitPush(q.segments[|q.segments| - 1].payloads, p);
  }

  lemma {:induction false} GrowLastFiled(q: Queue, p: Payload)
    requires q.segments != [] && Increasing(q.segments) && SegmentsFit(q.segments) && Fits(p)
    ensures var files, last, segs := FilesOf(q.segments), Last(q.segments).sequence, GrowLast(q, p).segments;
            && last in files && FilesOf(segs) == files[last := files[last] + Frame(p)]
            && Increasing(segs) && SegmentsFit(segs)
  {
    GrowLastFile(q.segments, p);
    GrowLastShape(q, p);
  }

  lemma {:induction false} GrowLastMetas(q: Queue, p: Payload)
    requires q.segments != []
    ensures var n := |q.segments|;
            var last := Metas(q.segments)[n - 1];
            Metas(GrowLast(q, p).segments) == Metas(q.segments)[..n - 1] +
            [Meta(last.sequence, last.bytes + RecordBytes(p), last.records + 1)]
  {
    SizeSnoc(q.segments[|q.segments| - 1].payloads, p);
  }

  /** Appending a frame to the last file. */
  lemma {:induction false} GrowLastFile(segments: seq<Segment>, p: Payload)
    requires segments != [] && Increasing(segments)
    ensures var n := |segments|;
            && var last := segments[n - 1];
            && last.sequence in FilesOf(segments)
            && FilesOf(segments[..n - 1] + [Segment(last.sequence, last.payloads + [p])])
               == FilesOf(segments)[last.sequence := FilesOf(segments)[last.sequence] + Frame(p)]
  {
    var n := |segments|;
    var init, last := segments[..n - 1], segments[n - 1];
    var grown := Segment(last.sequence, last.payloads + [p]);
    FileAt(segments, n - 1);
    InsertFile(init, last, []);
    InsertFile(init, grown, []);
    assert init + [last] + [] == segments;
    assert init + [grown] + [] == init + [grown];
    assert init + [] == init;
    EncodeConcat(last.payloads, [p]);
    EncodeOne(p);
  }

  /** The head segment after a partial ack: its file, its bytes, its records. */
  lemma {:induction false} AckedHead(segments: seq<Segment>, skip: nat)
    requires segments != [] && Increasing(segments) && SegmentsFit(segments)
    requires 0 < skip < |segments[0].payloads|
    ensures var kept := segments[0].payloads[skip..];
            && var after := AckSegments(segments, skip);
            && after == [Segment(segments[0].sequence, kept)] + segments[1..]
            && FilesOf(after) == FilesOf(segments)[segments[0].sequence := Encode(kept)]
            && Size(Flat(segments)) - Size(Flat(after)) == Size(segments[0].payloads) - Size(kept)
            && |Flat(after)| == |Flat(segments)| - skip
  {
    var kept := segments[0].payloads[skip..];
    var after := AckSegments(segments, skip);
    assert after[1..] == segments[1..];
    EncodeConcat(segments[0].payloads, Flat(segments[1..]));
    EncodeConcat(kept, Flat(segments[1..]));
  }

  lemma {:induction false} AckedHeadShape(segments: seq<Segment>, skip: nat)
    requires segments != [] && Increasing(segments) && SegmentsFit(segments)
    requires 0 < skip < |segments[0].payloads|
    ensures var after := [Segment(segments[0].sequence, segments[0].payloads[skip..])] + segments[1..];
            && Increasing(after) && SegmentsFit(after)
            && Metas(after) == [MetaOf(after[0])] + Metas(segments)[1..]
  {
    AllFitSlice(segments[0].payloads, skip);
  }

  // ----- opening

  /** A whole-frame file is one segment, and scanning it counts the segment. */
  ghost function SegmentIn(k: nat, file: seq<byte>): (s: Segment)
    requires WholeFrames(file)
    ensures s.sequence == k && AllFit(s.payloads) && Encode(s.payloads) == file
    ensures |file| <= U64_MAX ==> Scan(file) == Ok((Size(s.payloads), |s.payloads|))
  {
    var ps :| AllFit(ps) && Encode(ps) == file;
    assert Encode(ps) + [] == Encode(ps);
    ParseEncode(ps, []);
    EncodeLength(ps);
    Segment(k, ps)
  }

  ghost function Inserted(segments: seq<Segment>, i: nat, s: Segment): seq<Segment>
    requires i <= |segments|
  {
    segments[..i] + [s] + segments[i..]
  }

  lemma InsertShape(segments: seq<Segment>, i: nat, s: Segment)
    requires Increasing(segments) && SegmentsFit(segments) && AllFit(s.payloads) && i <= |segments|
    requires forall j :: 0 <= j < i ==> segments[j].sequence < s.sequence
    requires forall j :: i <= j < |segments| ==> s.sequence < segments[j].sequence
    ensures Increasing(Inserted(segments, i, s))
    ensures SegmentsFit(Inserted(segments, i, s))
  {
  }

  lemma {:induction false} InsertSegment(segments: seq<Segment>, i: nat, s: Segment)
    requires i <= |segments|
    requires forall j :: 0 <= j < i ==> segments[j].sequence < s.sequence
    ensures FilesOf(Inserted(segments, i, s)) == FilesOf(segments)[s.sequence := Encode(s.payloads)]
  {
    InsertFile(segments[..i], s, segments[i..]);
    assert segments[..i] + segments[i..] == segments;
  }

  lemma {:induction false} InsertCounts(segments: seq<Segment>, i: nat, s: Segment)
    requires i <= |segments|
    ensures |Flat(Inserted(segments, i, s))| == |Flat(segments)| + |s.payloads|
    ensures Size(Flat(Inserted(segments, i, s))) == Size(Flat(segments)) + Size(s.payloads)
  {
    FlatSplit(segments, i);
    FlatConcat(segments[..i] + [s], segments[i..]);
    FlatConcat(segments[..i], [s]);
    FlatOne(s);
  }

  lemma InsertMetas(segments: seq<Segment>, i: nat, s: Segment)
    requires i <= |segments|
    ensures Metas(Inserted(segments, i, s)) == Metas(segments)[..i] + [MetaOf(s)] + Metas(segments)[i..]
  {
  }

  lemma {:induction false} SegmentWithin(segments: seq<Segment>, i: nat)
    requires i < |segments|
    ensures Size(segments[i].payloads) <= Size(Flat(segments))
  {
    FlatSplit(segments, i);
    var tail := segments[i..];
    EncodeConcat(tail[0].payloads, Flat(tail[1..]));
  }

  lemma AddFile(files: map<nat, seq<byte>>, remaining: set<nat>, k: nat)
    requires k in remaining && remaining <= files.Keys
    ensures (files - remaining)[k := files[k]] == files - (remaining - {k})
  {
  }

  /** Scans every segment file, in directory order, into a sorted list. */
  method LoadState(disk: Disk)
    returns (segments: seq<Meta>, bytes: nat, records: nat, ghost loaded: seq<Segment>)
    requires WholeDisk(disk.files)
    ensures Holds(disk.files, loaded)
    ensures segments == Metas(loaded)
    ensures bytes == Size(Flat(loaded)) && records == |Flat(loaded)|
    ensures forall held :: Holds(disk.files, held) ==>
              segments == Metas(held) && bytes == Size(Flat(held)) && records == |Flat(held)|
  {
    segments, bytes, records, loaded := [], 0, 0, [];
    var remaining := disk.files.Keys;
    while remaining != {}
      invariant remaining <= disk.files.Keys
      invariant Holds(disk.files - remaining, loaded)
      invariant segments == Metas(loaded)
      invariant bytes == Size(Flat(loaded)) && records == |Flat(loaded)|
      decreases |remaining|
    {
      var k :| k in remaining;
      AddFile(disk.files, remaining, k);
      segments, bytes, records, loaded := LoadOne(k, disk.files[k], segments, bytes, records, loaded, disk.files - remaining);
      remaining := remaining - {k};
    }
    assert disk.files - remaining == disk.files;
    forall held | Holds(disk.files, held) ensures held == loaded {
      HoldsUnique(disk.files, held, loaded);
    }
  }

  /** Scans one more file and puts its segment in place. */
  method LoadOne(k: nat, file: seq<byte>, segments: seq<Meta>, bytes: nat, records: nat, ghost loaded: seq<Segment>,
                 ghost files: map<nat, seq<byte>>)
    returns (segments': seq<Meta>, bytes': nat, records': nat, ghost loaded': seq<Segment>)
    requires k !in files && |file| <= U64_MAX && WholeFrames(file)
    requires Holds(files, loaded) && segments == Metas(loaded)
    requires bytes == Size(Flat(loaded)) && records == |Flat(loaded)|
    ensures Holds(files[k := file], loaded') && segments' == Metas(loaded')
    ensures bytes' == Size(Flat(loaded')) && records' == |Flat(loaded')|
  {
    ghost var s := SegmentIn(k, file);
    var scanned := ScanSegment(file);
    var i := FindPlace(segments, k, loaded);
    InsertSegment(loaded, i, s);
    InsertShape(loaded, i, s);
    InsertCounts(loaded, i, s);
    InsertMetas(loaded, i, s);
    segments' := segments[..i] + [Meta(k, scanned.value.0, scanned.value.1)] + segments[i..];
    loaded' := Inserted(loaded, i, s);
    bytes', records' := bytes + scanned.value.0, records + scanned.value.1;
  }

  /** Where a new sequence number belongs in the sorted list. */
  method FindPlace(segments: seq<Meta>, k: nat, ghost loaded: seq<Segment>) returns (i: nat)
    requires Increasing(loaded) && segments == Metas(loaded)
    requires k !in FilesOf(loaded)
    ensures i <= |segments|
    ensures forall j :: 0 <= j < i ==> loaded[j].sequence < k
    ensures forall j :: i <= j < |loaded| ==> k < loaded[j].sequence
  {
    FilesKeys(loaded, k);
    i := 0;
    while i < |segments| && segments[i].sequence < k
      invariant 0 <= i <= |segments|
      invariant forall j :: 0 <= j < i ==> loaded[j].sequence < k
    {
      i := i + 1;
    }
  }

  /** Rebuilds the spool from its directory and trims it to the budget. */
  method Open(config: Config, disk: Disk)
    returns (r: Result<DiskSpool, SpoolError>, ghost loaded: seq<Segment>)
    requires WholeDisk(disk.files)
    requires config.maxBytes <= U64_MAX
    modifies disk
    ensures r.Err? <==> config.maxBytes == 0
    ensures r.Err? ==> r.error == ZeroBudget && disk.files == old(disk.files)
    ensures r.Ok? ==> Holds(old(disk.files), loaded)
    ensures r.Ok? ==> fresh(r.value) && r.value.config == config && r.value.disk == disk
    ensures r.Ok? ==> r.value.Valid() && r.value.model == Enforce(config, Load(loaded))
  {
    if config.maxBytes == 0 {
      return Err(ZeroBudget), [];
    }
    var segments, bytes, records;
    segments, bytes, records, loaded := LoadState(disk);
    var next := if segments == [] then 0 else SaturatingSucc(segments[|segments| - 1].sequence);
    LoadIsOrdered(disk.files, loaded);
    var spool := new DiskSpool.Loaded(config, disk, segments, bytes, records, next, loaded);
    EnforceRefines(config, spool.model);
    SegmentsFitFlat(loaded);
    spool.EnforceBudget();
    r := Ok(spool);
  }

  lemma LoadIsOrdered(files: map<nat, seq<byte>>, loaded: seq<Segment>)
    requires WholeDisk(files) && Holds(files, loaded)
    ensures Ordered(Load(loaded))
  {
    forall i | 0 <= i < |loaded|
      ensures loaded[i].sequence <= U64_MAX
    {
      FilesKeys(loaded, loaded[i].sequence);
    }
  }

  /** A valid spool leaves a directory that a restart can load, and the restart
      finds in it exactly the segments the spool had. */
  lemma DirectoryOfValid(files: map<nat, seq<byte>>, q: Queue, config: Config)
    requires SpoolQueue.Valid(config, q)
    requires files == FilesOf(q.segments)
    ensures WholeDisk(files)
    ensures Holds(files, q.segments)
    ensures forall loaded :: Holds(files, loaded) ==> loaded == q.segments
  {
    SegmentsFitFlat(q.segments);
    forall k | k in files
      ensures k <= U64_MAX && |files[k]| <= U64_MAX && WholeFrames(files[k])
    {
      FilesKeys(q.segments, k);
      var i :| 0 <= i < |q.segments| && q.segments[i].sequence == k;
      FileAt(q.segments, i);
      EncodeLength(q.segments[i].payloads);
      SegmentWithin(q.segments, i);
    }
    forall loaded | Holds(files, loaded)
      ensures loaded == q.segments
    {
      HoldsUnique(files, loaded, q.segments);
    }
  }

  /** One operation of a run; a restart opens a new spool on the same disk. */
  method Perform(spool: DiskSpool, op: Op) returns (after: DiskSpool)
    requires spool.Valid()
    requires Safe(spool.config, spool.model, op)
    modifies spool, spool.disk
    ensures after == spool || fresh(after)
    ensures after.Valid() && after.disk == spool.disk && after.config == spool.config
    ensures after.model == StepQueue(spool.config, old(spool.model), op)
  {
    after := spool;
    match op {
      case OpAppend(p) => var _ := spool.AppendBytes(p);
      case OpAck(n) => var _ := spool.AckRecords(n);
      case OpReopen =>
        DirectoryOfValid(spool.disk.files, spool.model, spool.config);
        var again, _ := Open(spool.config, spool.disk);
        after := again.value;
    }
  }

  /** Drives a spool through a whole run, restarting the process where the run
      says so: the files and counters always stand for the queue of the run. */
  method Replay(config: Config, disk: Disk, ops: seq<Op>) returns (spool: DiskSpool, ghost start: Queue)
    requires WholeDisk(disk.files)
    requires ConfigOk(config)
    requires forall loaded :: Holds(disk.files, loaded) ==> SafeRun(config, Enforce(config, Load(loaded)), ops)
    modifies disk
    ensures spool.Valid() && spool.disk == disk && spool.config == config
    ensures SpoolQueue.Valid(config, start) && SafeRun(config, start, ops)
    ensures spool.model == RunQueue(config, start, ops)
    ensures exists loaded :: Holds(old(disk.files), loaded) && start == Enforce(config, Load(loaded))
  {
    var first, loaded := Open(config, disk);
    spool := first.value;
    start := spool.model;
    var i := 0;
    while i < |ops|
      invariant 0 <= i <= |ops|
      invariant fresh(spool) && spool.Valid() && spool.disk == disk && spool.config == config
      invariant spool.model == RunQueue(config, start, ops[..i])
    {
      RunQueueStep(config, start, ops, i);
      SafePrefix(config, start, ops, i);
      ghost var q := spool.model;
      spool := Perform(spool, ops[i]);
      assert spool.model == StepQueue(config, q, ops[i]) == RunQueue(config, start, ops[..i + 1]);
      i := i + 1;
    }
    assert ops[..i] == ops;
  }

  // ----- when a sequence number is handed out twice

  /** The directory after the two writes of an append: a full last segment makes
      it create, and so empty, the file of the next number. */
  ghost function Written(cfg: Config, q: Queue, files: map<nat, seq<byte>>, p: Payload): map<nat, seq<byte>>
    requires q.segments != [] ==> q.segments[|q.segments| - 1].sequence in files
  {
    if LastHasRoom(cfg, q, RecordBytes(p)) then
      var last := q.segments[|q.segments| - 1].sequence;
      files[last := files[last] + Frame(p)]
    else files[q.nextSequence := Frame(p)]
  }

  /** What preparing a segment leaves: the file to write to, and where it came from. */
  ghost predicate PreparedFor(cfg: Config, q: Queue, recordBytes: nat, before: map<nat, seq<byte>>,
                              after: map<nat, seq<byte>>, last: nat)
  {
    && last in after
    && if LastHasRoom(cfg, q, recordBytes) then after == before && last == Last(q.segments).sequence
       else after == before[q.nextSequence := []] && last == q.nextSequence
  }

  lemma WrittenTwice(cfg: Config, q: Queue, files: map<nat, seq<byte>>, prepared: map<nat, seq<byte>>, last: nat, p: Payload)
    requires q.segments != [] ==> Last(q.segments).sequence in files
    requires PreparedFor(cfg, q, RecordBytes(p), files, prepared, last)
    ensures prepared[last := prepared[last] + Frame(p)] == Written(cfg, q, files, p)
  {
    assert [] + Frame(p) == Frame(p);
  }

  /** The directory still holds the queue if and only if no number is reused. */
  lemma {:induction false} PushKeepsDirectoryIff(cfg: Config, q: Queue, p: Payload)
    requires SpoolQueue.Valid(cfg, q) && Fits(p)
    ensures q.segments != [] ==> q.segments[|q.segments| - 1].sequence in FilesOf(q.segments)
    ensures Holds(Written(cfg, q, FilesOf(q.segments), p), Push(cfg, q, p).segments)
            <==> !Reuses(cfg, q, RecordBytes(p))
  {
    var n := |q.segments|;
    if n > 0 { FileAt(q.segments, n - 1); }
    PushKeepsOrderIff(cfg, q, p);
    if !Reuses(cfg, q, RecordBytes(p)) {
      PushFits(cfg, q, p);
      PushFiles(cfg, q, p);
    }
  }

  lemma {:induction false} PushFiles(cfg: Config, q: Queue, p: Payload)
    requires Ordered(q) && !Reuses(cfg, q, RecordBytes(p))
    requires q.segments != [] ==> Last(q.segments).sequence in FilesOf(q.segments)
    ensures FilesOf(Push(cfg, q, p).segments) == Written(cfg, q, FilesOf(q.segments), p)
  {
    if LastHasRoom(cfg, q, RecordBytes(p)) {
      GrowLastFile(q.segments, p);
    } else {
      NewestNumber(q);
      NewSegmentFile(q.segments, q.nextSequence, p);
      NewSegmentPush(cfg, q, p);
    }
  }

  lemma {:induction false} PushFits(cfg: Config, q: Queue, p: Payload)
    requires AllFit(Contents(q)) && Fits(p)
    ensures SegmentsFit(Push(cfg, q, p).segments)
  {
    PushRefines(cfg, q, p);
    AllFitPush(Contents(q), p);
    SegmentsFitFlat(Push(cfg, q, p).segments);
  }

  lemma {:induction false} NewSegmentFile(segments: seq<Segment>, sequence: nat, p: Payload)
    requires forall i :: 0 <= i < |segments| ==> segments[i].sequence != sequence
    ensures FilesOf(segments + [Segment(sequence, [p])]) == FilesOf(segments)[sequence := Frame(p)]
  {
    var s := Segment(sequence, [p]);
    InsertFile(segments, s, []);
    EncodeOne(p);
    assert segments + [] == segments;
    assert segments + [s] + [] == segments + [s];
  }

  /** When a number is reused the directory holds the older segments and the new
      record alone: the records of the last segment, of which there are some, are
      gone, though the running spool still counts them. */
  lemma {:induction false} ReuseTruncates(cfg: Config, q: Queue, p: Payload)
    requires SpoolQueue.Valid(cfg, q) && Fits(p) && Reuses(cfg, q, RecordBytes(p))
    ensures q.segments[|q.segments| - 1].sequence in FilesOf(q.segments)
    ensures var n := |q.segments|;
            && var left := q.segments[..n - 1] + [Segment(U64_MAX, [p])];
            && q.segments[n - 1].payloads != []
            && Holds(Written(cfg, q, FilesOf(q.segments), p), left)
            && Flat(left) == Flat(q.segments[..n - 1]) + [p]
            && Contents(Push(cfg, q, p)) == Flat(q.segments[..n - 1]) + q.segments[n - 1].payloads + [p]
  {
    var n := |q.segments|;
    ReusesOnlySaturated(cfg, q, RecordBytes(p));
    FileAt(q.segments, n - 1);
    SegmentsFitFlat(q.segments);
    ReplaceLast(q.segments, p);
    FlatSnoc(q.segments[..n - 1], Segment(U64_MAX, [p]));
    FlatThrough(q.segments, n - 1);
    assert q.segments[..n] == q.segments;
    PushRefines(cfg, q, p);
  }

  /** Creating the file of the last segment anew. */
  lemma {:induction false} ReplaceLast(segments: seq<Segment>, p: Payload)
    requires segments != [] && Increasing(segments) && SegmentsFit(segments) && Fits(p)
    ensures var n := |segments|;
            && var left := segments[..n - 1] + [Segment(segments[n - 1].sequence, [p])];
            && Increasing(left) && SegmentsFit(left)
            && FilesOf(left) == FilesOf(segments)[segments[n - 1].sequence := Frame(p)]
  {
    var n := |segments|;
    var init, last := segments[..n - 1], segments[n - 1];
    NewSegmentFile(init, last.sequence, p);
    LastFile(init, last);
    assert init + [last] == segments;
  }

  lemma LastFile(init: seq<Segment>, last: Segment)
    requires forall i :: 0 <= i < |init| ==> init[i].sequence != last.sequence
    ensures FilesOf(init + [last]) == FilesOf(init)[last.sequence := Encode(last.payloads)]
  {
    InsertFile(init, last, []);
    assert init + [last] + [] == init + [last] && init + [] == init;
  }

  /** It takes only a directory with the last number in it, and two records that do
      not share a segment: a restart after the append finds the second one alone. */
  lemma {:induction false} ReuseReachable(cfg: Config, first: Payload, second: Payload)
    requires ConfigOk(cfg)
    requires RecordBytes(first) <= cfg.maxBytes && RecordBytes(second) <= cfg.maxBytes
    requires RecordBytes(first) + RecordBytes(second) > Max(cfg.maxSegmentBytes, RecordBytes(second))
    ensures var files, loaded := map[U64_MAX := Encode([first])], [Segment(U64_MAX, [first])];
            && WholeDisk(files) && Holds(files, loaded)
            && var q := Enforce(cfg, Load(loaded));
            && SpoolQueue.Valid(cfg, q) && q.segments == loaded
            && Reuses(cfg, q, RecordBytes(second))
            && Holds(Written(cfg, q, files, second), [Segment(U64_MAX, [second])])
  {
    var s := Segment(U64_MAX, [first]);
    var loaded := [s];
    var files := map[U64_MAX := Encode([first])];
    assert FilesOf(loaded[1..]) == map[];
    assert FilesOf(loaded) == files;
    FlatOne(s);
    EncodeOne(first);
    EncodeLength([first]);
    EnforceRefines(cfg, Load(loaded));
    var q := Load(loaded);
    ReuseTruncates(cfg, q, second);
    assert q.segments[..0] + [Segment(U64_MAX, [second])] == [Segment(U64_MAX, [second])];
  }
}
