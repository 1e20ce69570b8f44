/** The self-update transfer: a new binary is brought into a temporary file by one
    of three routes, checked, and renamed over the running one. What the network,
    the disk and `curl` do is an input; the checksum is any function of the bytes. */
module SelfUpdate {
  import opened Basics
  import opened Text

  const MAX_AGENT_BINARY_SIZE: nat := 0x800_0000

  type Bytes = seq<byte>

  type Digest = Bytes -> string

  datatype Payload = Payload(inlined: bool, downloadUrl: string, expectedChecksum: string, version: string)

  datatype Downloaded = Downloaded(bytes: nat, checksum: string)

  /** How one write went: complete, or failed and leaving `left` in the file. */
  datatype Write = Written | Torn(left: Bytes)

  datatype Chunk = Chunk(seqNo: nat, checksum: string, totalSize: int, data: Bytes, write: Write)

  /** A stream: refused, or chunks and then a clean end or an error; `synced` says
      whether the temporary file was flushed. */
  datatype Stream = Refused | Stream(creates: bool, chunks: seq<Chunk>, endsCleanly: bool, synced: bool)

  /** What one read returns before the end of input. */
  type NonEmpty = b: Bytes | b != [] witness [0]

  datatype Piece = Piece(data: NonEmpty, write: Write)

  /** A reader, such as the base64 decoder or the output of `curl`: its
      reads and how they end; `succeeds` is the verdict after the copy. */
  datatype Source = Source(creates: bool, pieces: seq<Piece>, endsCleanly: bool, succeeds: bool)

  datatype World = World(openFailsAt: Option<nat>, inlined: Source, stream: Stream, curl: Source, installs: bool)

  // ----- what a transfer delivers

  function ChunkData(chunks: seq<Chunk>): Bytes
    decreases |chunks|
  {
    if chunks == [] then [] else ChunkData(chunks[..|chunks| - 1]) + chunks[|chunks| - 1].data
  }

  function PieceData(pieces: seq<Piece>): Bytes
    decreases |pieces|
  {
    if pieces == [] then [] else PieceData(pieces[..|pieces| - 1]) + pieces[|pieces| - 1].data
  }

  /** Chunk `i` carries number `i`, and every write that was needed went through. */
  predicate ChunkInPlace(c: Chunk, i: nat)
  {
    c.seqNo == Min(i, U32_MAX) && (c.data == [] || c.write == Written)
  }

  /** The first chunk's claims: a checksum, if any, that is the expected one, and a
      total size within the limit. */
  predicate FirstAccepted(p: Payload, c: Chunk)
  {
    var checksum := Lower(Trim(c.checksum));
    (checksum == "" || checksum == p.expectedChecksum) && c.totalSize <= MAX_AGENT_BINARY_SIZE
  }

  ghost predicate ChunksInPlace(chunks: seq<Chunk>)
  {
    forall i :: 0 <= i < |chunks| ==> ChunkInPlace(chunks[i], i)
  }

  /** A streamed update is complete: the chunks are numbered in order from 0, they
      fit the limit, and together have the size declared, if one was. */
  ghost predicate StreamComplete(p: Payload, s: Stream)
  {
    && Trim(p.version) != ""
    && s.Stream? && s.creates && s.endsCleanly && s.synced
    && s.chunks != []
    && FirstAccepted(p, s.chunks[0])
    && ChunksInPlace(s.chunks)
    && |ChunkData(s.chunks)| <= MAX_AGENT_BINARY_SIZE
    && (s.chunks[0].totalSize > 0 ==> |ChunkData(s.chunks)| == s.chunks[0].totalSize)
  }

  ghost predicate SourceComplete(s: Source)
  {
    && s.creates && s.endsCleanly && s.succeeds
    && (forall i :: 0 <= i < |s.pieces| ==> s.pieces[i].write == Written)
    && |PieceData(s.pieces)| <= MAX_AGENT_BINARY_SIZE
  }

  /** The bytes an update ends up with: inlined, streamed, or fetched from the
      fallback address when the stream is not complete. */
  ghost function Delivered(p: Payload, w: World): Option<Bytes>
  {
    if p.inlined then
      if SourceComplete(w.inlined) then Some(PieceData(w.inlined.pieces)) else None
    else if StreamComplete(p, w.stream) then Some(ChunkData(w.stream.chunks))
    else if p.downloadUrl != "" && SourceComplete(w.curl) then Some(PieceData(w.curl.pieces))
    else None
  }

  lemma {:induction false} ChunkPrefix(chunks: seq<Chunk>, n: nat)
    requires n <= |chunks|
    ensures |ChunkData(chunks[..n])| <= |ChunkData(chunks)|
    decreases |chunks|
  {
    if n < |chunks| {
      var init := chunks[..|chunks| - 1];
      ChunkPrefix(init, n);
      assert init[..n] == chunks[..n];
    } else {
      assert chunks[..n] == chunks;
    }
  }

  lemma {:induction false} PiecePrefix(pieces: seq<Piece>, n: nat)
    requires n <= |pieces|
    ensures |PieceData(pieces[..n])| <= |PieceData(pieces)|
    decreases |pieces|
  {
    if n < |pieces| {
      var init := pieces[..|pieces| - 1];
      PiecePrefix(init, n);
      assert init[..n] == pieces[..n];
    } else {
      assert pieces[..n] == pieces;
    }
  }

  lemma ChunkSnoc(chunks: seq<Chunk>, i: nat)
    requires i < |chunks|
    ensures ChunkData(chunks[..i + 1]) == ChunkData(chunks[..i]) + chunks[i].data
    ensures |ChunkData(chunks[..i + 1])| <= |ChunkData(chunks)|
  {
    assert chunks[..i + 1][..i] == chunks[..i];
    ChunkPrefix(chunks, i + 1);
  }

  lemma PieceSnoc(pieces: seq<Piece>, i: nat)
    requires i < |pieces|
    ensures PieceData(pieces[..i + 1]) == PieceData(pieces[..i]) + pieces[i].data
    ensures |PieceData(pieces[..i + 1])| <= |PieceData(pieces)|
  {
    assert pieces[..i + 1][..i] == pieces[..i];
    PiecePrefix(pieces, i + 1);
  }

  // ----- the file system

  class FileSystem {
    var files: map<string, Bytes>

    constructor (files: map<string, Bytes>)
      ensures this.files == files
    {
      this.files := files;
    }

    /** Creates an empty file no one had, trying up to 100 names. */
    method NewTemp(candidate: nat -> string, openFailsAt: Option<nat>) returns (path: Option<string>)
      modifies this
      ensures path.None? ==> files == old(files) && !exists k :: TempAt(old(files), candidate, openFailsAt, k)
      ensures path.Some? ==> path.value !in old(files) && files == old(files)[path.value := []]
      ensures path.Some? ==> exists k :: TempAt(old(files), candidate, openFailsAt, k) && path.value == candidate(k)
    {
      for attempt := 0 to 100
        invariant files == old(files)
        invariant forall j :: 0 <= j < attempt ==> candidate(j) in files && openFailsAt != Some(j)
      {
        if openFailsAt == Some(attempt) {
          return None;
        }
        if candidate(attempt) !in files {
          assert TempAt(files, candidate, openFailsAt, attempt);
          files := files[candidate(attempt) := []];
          return Some(candidate(attempt));
        }
      }
      return None;
    }

    /** Appends, or leaves what a failed write left. */
    method Append(path: string, data: Bytes, write: Write) returns (ok: bool)
      requires path in files
      modifies this
      ensures ok <==> write == Written
      ensures files == old(files)[path := if ok then old(files)[path] + data else write.left]
    {
      match write
      case Written =>
        files := files[path := files[path] + data];
        return true;
      case Torn(left) =>
        files := files[path := left];
        return false;
    }

    /** Renames the temporary file over the target, or fails and changes nothing. */
    method Install(temp: string, target: string, installs: bool) returns (ok: bool)
      requires temp in files
      modifies this
      ensures ok == installs
      ensures files == if ok then (old(files) - {temp})[target := old(files)[temp]] else old(files)
    {
      if installs {
        files := (files - {temp})[target := files[temp]];
      }
      return installs;
    }
  }

  /** The `k`th name is the first free one, and no open failed before. */
  ghost predicate TempAt(files: map<string, Bytes>, candidate: nat -> string, openFailsAt: Option<nat>, k: nat)
  {
    && k < 100
    && candidate(k) !in files
    && (forall j :: 0 <= j < k ==> candidate(j) in files)
    && (openFailsAt.Some? ==> openFailsAt.value > k)
  }

  // ----- transfers

  /** Writes a chunk if it fits, keeping file, hash and count in step. */
  method WriteChunkCapped(fs: FileSystem, path: string, hashed: Bytes, written: nat, data: Bytes, write: Write)
    returns (ok: bool, hashed': Bytes, written': nat)
    requires path in fs.files && fs.files[path] == hashed && written == |hashed| <= MAX_AGENT_BINARY_SIZE
    modifies fs
    ensures ok <==> |hashed| + |data| <= MAX_AGENT_BINARY_SIZE && (data == [] || write == Written)
    ensures path in fs.files && fs.files == old(fs.files)[path := fs.files[path]]
    ensures ok ==> fs.files[path] == hashed' == hashed + data && written' == |hashed'|
  {
    hashed', written' := hashed, written;
    var next := written + |data|;
    if next > U64_MAX {
      return false, hashed', written';
    }
    if next > MAX_AGENT_BINARY_SIZE {
      return false, hashed', written';
    }
    if data != [] {
      ok := fs.Append(path, data, write);
      if !ok {
        return false, hashed', written';
      }
      hashed' := hashed + data;
      written' := next;
    }
    return true, hashed', written';
  }

  /** Succeeds if and only if the stream is complete, leaving its chunks in order in
      the file; changes no other file either way. */
  method StreamAgentBinary(fs: FileSystem, path: string, p: Payload, s: Stream, digest: Digest)
    returns (r: Option<Downloaded>)
    requires path in fs.files
    modifies fs
    ensures path in fs.files && fs.files == old(fs.files)[path := fs.files[path]]
    ensures r.Some? <==> StreamComplete(p, s)
    ensures r.Some? ==> fs.files[path] == ChunkData(s.chunks)
    ensures r.Some? ==> r.value == Downloaded(|fs.files[path]|, digest(fs.files[path]))
  {
    if Trim(p.version) == "" {
      return None;
    }
    if s.Refused? || !s.creates {
      return None;
    }
    fs.files := fs.files[path := []];
    var ok, hashed, total := ReceiveChunks(fs, path, p, s.chunks);
    if !ok || !s.endsCleanly {
      return None;
    }
    if s.chunks == [] {
      return None;
    }
    if total > 0 && |hashed| != total {
      return None;
    }
    if !s.synced {
      return None;
    }
    return Some(Downloaded(|hashed|, digest(hashed)));
  }

  /** The chunk loop, up to the first chunk that is refused. */
  method ReceiveChunks(fs: FileSystem, path: string, p: Payload, chunks: seq<Chunk>)
    returns (ok: bool, hashed: Bytes, total: int)
    requires path in fs.files && fs.files[path] == []
    modifies fs
    ensures path in fs.files && fs.files == old(fs.files)[path := fs.files[path]]
    ensures ok <==> ChunksInPlace(chunks) && |ChunkData(chunks)| <= MAX_AGENT_BINARY_SIZE
                    && (chunks != [] ==> FirstAccepted(p, chunks[0]))
    ensures ok ==> fs.files[path] == hashed == ChunkData(chunks)
    ensures ok && chunks != [] ==> total == chunks[0].totalSize
  {
    var expectedSeq, written := 0, 0;
    hashed, total := [], 0;
    for i := 0 to |chunks|
      invariant path in fs.files && fs.files == old(fs.files)[path := hashed]
      invariant hashed == ChunkData(chunks[..i])
      invariant written == |hashed| <= MAX_AGENT_BINARY_SIZE
      invariant expectedSeq == Min(i, U32_MAX)
      invariant forall j :: 0 <= j < i ==> ChunkInPlace(chunks[j], j)
      invariant i > 0 ==> FirstAccepted(p, chunks[0]) && total == chunks[0].totalSize
    {
      ChunkSnoc(chunks, i);
      var chunk := chunks[i];
      if chunk.seqNo != expectedSeq {
        return false, hashed, total;
      }
      if expectedSeq == 0 {
        total := chunk.totalSize;
        if !FirstAccepted(p, chunk) {
          return false, hashed, total;
        }
      }
      ok, hashed, written := WriteChunkCapped(fs, path, hashed, written, chunk.data, chunk.write);
      if !ok {
        return false, hashed, total;
      }
      expectedSeq := if expectedSeq == U32_MAX then U32_MAX else expectedSeq + 1;
    }
    assert chunks[..|chunks|] == chunks;
    return true, hashed, total;
  }

  /** Copies a reader into the file: succeeds if and only if the reader ends cleanly,
      every write went through and the whole fits the limit. */
  method CopyReaderCapped(fs: FileSystem, path: string, s: Source, digest: Digest) returns (r: Option<Downloaded>)
    requires path in fs.files
    modifies fs
    ensures path in fs.files && fs.files == old(fs.files)[path := fs.files[path]]
    ensures r.Some? <==> SourceComplete(s)
    ensures r.Some? ==> fs.files[path] == PieceData(s.pieces)
    ensures r.Some? ==> r.value == Downloaded(|fs.files[path]|, digest(fs.files[path]))
  {
    if !s.creates {
      return None;
    }
    fs.files := fs.files[path := []];
    var ok, hashed := CopyPieces(fs, path, s.pieces);
    if !ok || !s.endsCleanly || !s.succeeds {
      return None;
    }
    return Some(Downloaded(|hashed|, digest(hashed)));
  }

  method CopyPieces(fs: FileSystem, path: string, pieces: seq<Piece>) returns (ok: bool, hashed: Bytes)
    requires path in fs.files && fs.files[path] == []
    modifies fs
    ensures path in fs.files && fs.files == old(fs.files)[path := fs.files[path]]
    ensures ok <==> (forall i :: 0 <= i < |pieces| ==> pieces[i].write == Written)
                    && |PieceData(pieces)| <= MAX_AGENT_BINARY_SIZE
    ensures ok ==> fs.files[path] == hashed == PieceData(pieces)
  {
    var written := 0;
    hashed := [];
    for i := 0 to |pieces|
      invariant path in fs.files && fs.files == old(fs.files)[path := hashed]
      invariant hashed == PieceData(pieces[..i])
      invariant written == |hashed| <= MAX_AGENT_BINARY_SIZE
      invariant forall j :: 0 <= j < i ==> pieces[j].write == Written
    {
      PieceSnoc(pieces, i);
      var next := written + |pieces[i].data|;
      if next > MAX_AGENT_BINARY_SIZE {
        return false, hashed;
      }
      ok := fs.Append(path, pieces[i].data, pieces[i].write);
      if !ok {
        return false, hashed;
      }
      hashed := hashed + pieces[i].data;
      written := next;
    }
    assert pieces[..|pieces|] == pieces;
    return true, hashed;
  }

  /** Inline, streamed, or the fallback download after a stream that failed
      anywhere, which starts the file over. */
  method Transfer(fs: FileSystem, path: string, p: Payload, w: World, digest: Digest) returns (r: Option<Downloaded>)
    requires path in fs.files
    modifies fs
    ensures path in fs.files && fs.files == old(fs.files)[path := fs.files[path]]
    ensures r.Some? <==> Delivered(p, w).Some?
    ensures r.Some? ==> fs.files[path] == Delivered(p, w).value && r.value.checksum == digest(fs.files[path])
  {
    if p.inlined {
      r := CopyReaderCapped(fs, path, w.inlined, digest);
    } else {
      r := StreamAgentBinary(fs, path, p, w.stream, digest);
      if r.None? && p.downloadUrl != "" {
        r := CopyReaderCapped(fs, path, w.curl, digest);
      }
    }
  }

  /** The update leaves every file as it was, or replaces the target, and nothing
      else, by the delivered bytes, which have the expected checksum and are within
      the limit. It does the
      latter if and only if a temporary file could be had, the delivery is complete
      with that checksum, and the rename went through. */
  method UpdateAgent(fs: FileSystem, target: string, payload: Option<Payload>, w: World, digest: Digest,
                     candidate: nat -> string) returns (ok: bool)
    requires target in fs.files
    modifies fs
    ensures !ok ==> fs.files == old(fs.files)
    ensures ok ==> Replaces(old(fs.files), fs.files, target, payload, w, digest)
    ensures ok <==> CanUpdate(old(fs.files), payload, w, digest, candidate)
  {
    if payload.None? {
      return false;
    }
    var p := payload.value;
    var temp := fs.NewTemp(candidate, w.openFailsAt);
    if temp.None? {
      return false;
    }
    var path := temp.value;
    var downloaded := Transfer(fs, path, p, w, digest);
    ok := downloaded.Some? && downloaded.value.checksum == p.expectedChecksum;
    if ok {
      ok := fs.Install(path, target, w.installs);
    }
    if !ok {
      fs.files := fs.files - {path};
    }
  }

  ghost predicate Replaces(before: map<string, Bytes>, after: map<string, Bytes>, target: string,
                           payload: Option<Payload>, w: World, digest: Digest)
  {
    && payload.Some?
    && Delivered(payload.value, w).Some?
    && after == before[target := Delivered(payload.value, w).value]
    && |Delivered(payload.value, w).value| <= MAX_AGENT_BINARY_SIZE
    && digest(Delivered(payload.value, w).value) == payload.value.expectedChecksum
  }

  ghost predicate CanUpdate(files: map<string, Bytes>, payload: Option<Payload>, w: World, digest: Digest,
                            candidate: nat -> string)
  {
    && payload.Some?
    && (exists k :: TempAt(files, candidate, w.openFailsAt, k))
    && Delivered(payload.value, w).Some?
    && digest(Delivered(payload.value, w).value) == payload.value.expectedChecksum
    && w.installs
  }
}
