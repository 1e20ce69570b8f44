/** The on-disk record format of the log spool: an 8-byte big-endian length,
    then the payload. */
module SpoolFraming {
  import opened Basics

  type Payload = seq<byte>

  const HEADER_BYTES: nat := 8

  datatype FramingError = TornPayload | SizeOverflow

  // ----- big-endian integers

  function Pow256(width: nat): nat
  {
    if width == 0 then 1 else 256 * Pow256(width - 1)
  }

  function BigEndian(n: nat, width: nat): (s: seq<byte>)
    ensures |s| == width
    decreases n, width
  {
    if width == 0 then [] else BigEndian(n / 256, width - 1) + [n % 256]
  }

  function FromBigEndian(s: seq<byte>): nat
  {
    if s == [] then 0 else 256 * FromBigEndian(s[..|s| - 1]) + s[|s| - 1]
  }

  lemma {:induction false} DecodeBigEndian(n: nat, width: nat)
    requires n < Pow256(width)
    ensures FromBigEndian(BigEndian(n, width)) == n
  {
    if width > 0 {
      DecodeBigEndian(n / 256, width - 1);
      var s := BigEndian(n, width);
      assert s[..|s| - 1] == BigEndian(n / 256, width - 1);
    }
  }

  lemma {:induction false} EncodeBigEndian(s: seq<byte>)
    ensures BigEndian(FromBigEndian(s), |s|) == s
    ensures FromBigEndian(s) < Pow256(|s|)
  {
    if s != [] {
      EncodeBigEndian(s[..|s| - 1]);
      assert s[..|s| - 1] + [s[|s| - 1]] == s;
    }
  }

  lemma Pow256Eight()
    ensures Pow256(8) == U64_MAX + 1
  {
    assert Pow256(4) == 0x1_0000_0000 by { assert Pow256(2) == 0x1_0000; }
    assert Pow256(6) == 256 * 256 * Pow256(4);
    assert Pow256(8) == 256 * 256 * Pow256(6);
  }

  // ----- frames

  /** Bytes a payload takes on disk. */
  function RecordBytes(p: Payload): nat { HEADER_BYTES + |p| }

  ghost predicate Fits(p: Payload) { RecordBytes(p) <= U64_MAX }

  ghost predicate AllFit(ps: seq<Payload>) { forall i :: 0 <= i < |ps| ==> Fits(ps[i]) }

  function Frame(p: Payload): (s: seq<byte>)
    ensures |s| == RecordBytes(p)
  {
    BigEndian(|p|, HEADER_BYTES) + p
  }

  /** The file holding `ps`, in order. */
  function Encode(ps: seq<Payload>): seq<byte>
  {
    if ps == [] then [] else Frame(ps[0]) + Encode(ps[1..])
  }

  function Size(ps: seq<Payload>): nat
  {
    if ps == [] then 0 else RecordBytes(ps[0]) + Size(ps[1..])
  }

  lemma {:induction false} EncodeLength(ps: seq<Payload>)
    ensures |Encode(ps)| == Size(ps)
  {
    if ps != [] { EncodeLength(ps[1..]); }
  }

  lemma {:induction false} EncodeConcat(a: seq<Payload>, b: seq<Payload>)
    ensures Encode(a + b) == Encode(a) + Encode(b)
    ensures Size(a + b) == Size(a) + Size(b)
  {
    if a == [] {
      assert a + b == b;
    } else {
      assert (a + b)[1..] == a[1..] + b;
      EncodeConcat(a[1..], b);
    }
  }

  lemma EncodeOne(p: Payload)
    ensures Encode([p]) == Frame(p)
    ensures Size([p]) == RecordBytes(p)
  {
    assert Encode([p]) == Frame(p) + Encode([]);
    assert Size([p]) == RecordBytes(p) + Size([]);
  }

  lemma {:induction false} SizeSnoc(ps: seq<Payload>, p: Payload)
    ensures Size(ps + [p]) == Size(ps) + RecordBytes(p)
  {
    EncodeConcat(ps, [p]);
    EncodeOne(p);
  }

  // ----- reading a segment file

  /** What `read_segment_payloads` returns: a header cut short ends the file,
      a payload cut short is an error. */
  function Parse(file: seq<byte>): Result<seq<Payload>, FramingError>
    decreases |file|
  {
    if |file| < HEADER_BYTES then Ok([])
    else
      var len := FromBigEndian(file[..HEADER_BYTES]);
      if |file| - HEADER_BYTES < len then Err(TornPayload)
      else
        match Parse(file[HEADER_BYTES + len..])
        case Ok(rest) => Ok([file[HEADER_BYTES..HEADER_BYTES + len]] + rest)
        case Err(e) => Err(e)
  }

  /** The unchecked 64-bit sum of a header and the length in it. */
  function FrameBytes(len: nat): nat
  {
    if HEADER_BYTES + len > U64_MAX then HEADER_BYTES + len - (U64_MAX + 1) else HEADER_BYTES + len
  }

  /** What `scan_segment` returns from byte and record totals `acc`: it trusts
      each header and skips as much of the payload as is there. */
  function ScanFrom(file: seq<byte>, acc: (nat, nat)): Result<(nat, nat), FramingError>
    decreases |file|
  {
    if |file| < HEADER_BYTES then Ok(acc)
    else
      var len := FromBigEndian(file[..HEADER_BYTES]);
      var bytes := acc.0 + FrameBytes(len);
      if bytes > U64_MAX then Err(SizeOverflow)
      else ScanFrom(file[Min(HEADER_BYTES + len, |file|)..], (bytes, acc.1 + 1))
  }

  function Scan(file: seq<byte>): Result<(nat, nat), FramingError> { ScanFrom(file, (0, 0)) }

  /** A file written only by complete appends. */
  ghost predicate WholeFrames(file: seq<byte>)
  {
    exists ps :: AllFit(ps) && Encode(ps) == file
  }

  lemma FrameHead(p: Payload, rest: seq<byte>)
    requires Fits(p)
    ensures var file := Frame(p) + rest;
            && FromBigEndian(file[..HEADER_BYTES]) == |p|
            && file[HEADER_BYTES..HEADER_BYTES + |p|] == p
            && file[HEADER_BYTES + |p|..] == rest
  {
    Pow256Eight();
    DecodeBigEndian(|p|, HEADER_BYTES);
    var file := Frame(p) + rest;
    assert file[..HEADER_BYTES] == BigEndian(|p|, HEADER_BYTES);
  }

  function Prepend(ps: seq<Payload>, r: Result<seq<Payload>, FramingError>): Result<seq<Payload>, FramingError>
  {
    match r
    case Ok(rest) => Ok(ps + rest)
    case Err(e) => Err(e)
  }

  lemma PrependTwice(a: seq<Payload>, b: seq<Payload>, r: Result<seq<Payload>, FramingError>)
    ensures Prepend(a, Prepend(b, r)) == Prepend(a + b, r)
    ensures Prepend([], r) == r
  {
    match r
    case Ok(rest) =>
      assert a + (b + rest) == a + b + rest;
      assert [] + rest == rest;
    case Err(_) =>
  }

  lemma {:induction false} ParseFrame(p: Payload, rest: seq<byte>)
    requires Fits(p)
    ensures Parse(Frame(p) + rest) == Prepend([p], Parse(rest))
  {
    FrameHead(p, rest);
  }

  lemma {:induction false} ScanFrame(p: Payload, rest: seq<byte>, acc: (nat, nat))
    requires Fits(p)
    requires acc.0 + RecordBytes(p) <= U64_MAX
    ensures ScanFrom(Frame(p) + rest, acc) == ScanFrom(rest, (acc.0 + RecordBytes(p), acc.1 + 1))
  {
    FrameHead(p, rest);
  }

  /** Complete frames are read back one by one, whatever follows them. */
  lemma {:induction false} ParseFrames(ps: seq<Payload>, rest: seq<byte>)
    requires AllFit(ps)
    ensures Parse(Encode(ps) + rest) == Prepend(ps, Parse(rest))
  {
    if ps == [] {
      assert Encode(ps) + rest == rest;
      PrependTwice([], [], Parse(rest));
    } else {
      var tail := Encode(ps[1..]) + rest;
      assert Encode(ps) + rest == Frame(ps[0]) + tail;
      ParseFrame(ps[0], tail);
      ParseFrames(ps[1..], rest);
      PrependTwice([ps[0]], ps[1..], Parse(rest));
      assert [ps[0]] + ps[1..] == ps;
    }
  }

  lemma {:induction false} ScanFrames(ps: seq<Payload>, rest: seq<byte>, acc: (nat, nat))
    requires AllFit(ps)
    requires acc.0 + Size(ps) <= U64_MAX
    ensures ScanFrom(Encode(ps) + rest, acc) == ScanFrom(rest, (acc.0 + Size(ps), acc.1 + |ps|))
  {
    if ps == [] {
      assert Encode(ps) + rest == rest;
    } else {
      var tail := Encode(ps[1..]) + rest;
      assert Encode(ps) + rest == Frame(ps[0]) + tail;
      ScanFrame(ps[0], tail, acc);
      ScanFrames(ps[1..], rest, (acc.0 + RecordBytes(ps[0]), acc.1 + 1));
    }
  }

  /** Framing round trip, also past a fragment shorter than a header: the reader
      returns the records, the scanner their true byte and record counts. */
  lemma {:induction false} ParseEncode(ps: seq<Payload>, fragment: seq<byte>)
    requires AllFit(ps)
    requires |fragment| < HEADER_BYTES
    ensures Parse(Encode(ps) + fragment) == Ok(ps)
    ensures Size(ps) <= U64_MAX ==> Scan(Encode(ps) + fragment) == Ok((Size(ps), |ps|))
  {
    ParseFrames(ps, fragment);
    assert ps + [] == ps;
    if Size(ps) <= U64_MAX { ScanFrames(ps, fragment, (0, 0)); }
  }

  /** The reader succeeds exactly on complete frames followed by less than a
      header. */
  lemma {:induction false} ParseSucceedsIff(file: seq<byte>)
    requires |file| <= U64_MAX
    ensures Parse(file).Ok? <==>
            exists ps, fragment :: AllFit(ps) && |fragment| < HEADER_BYTES && file == Encode(ps) + fragment
  {
    if Parse(file).Ok? {
      ParsedIsEncoded(file);
      var ps := Parse(file).value;
      assert file == Encode(ps) + file[|Encode(ps)|..];
    }
    forall ps, fragment | AllFit(ps) && |fragment| < HEADER_BYTES && file == Encode(ps) + fragment
      ensures Parse(file).Ok?
    {
      ParseEncode(ps, fragment);
    }
  }

  lemma HeadFrame(file: seq<byte>)
    requires HEADER_BYTES <= |file| <= U64_MAX
    requires FromBigEndian(file[..HEADER_BYTES]) <= |file| - HEADER_BYTES
    ensures var len := FromBigEndian(file[..HEADER_BYTES]);
            file == Frame(file[HEADER_BYTES..HEADER_BYTES + len]) + file[HEADER_BYTES + len..]
  {
    EncodeBigEndian(file[..HEADER_BYTES]);
  }

  lemma {:induction false} ParsedIsEncoded(file: seq<byte>)
    requires |file| <= U64_MAX
    requires Parse(file).Ok?
    ensures var ps := Parse(file).value;
            AllFit(ps) && Encode(ps) <= file && |file| - |Encode(ps)| < HEADER_BYTES
    decreases |file|
  {
    if |file| >= HEADER_BYTES {
      HeadFrame(file);
      var len := FromBigEndian(file[..HEADER_BYTES]);
      var rest := file[HEADER_BYTES + len..];
      ParsedIsEncoded(rest);
      var p, tail := file[HEADER_BYTES..HEADER_BYTES + len], Parse(rest).value;
      assert ([p] + tail)[1..] == tail;
      assert Encode([p] + tail) == Frame(p) + Encode(tail);
    }
  }

  /** The two readers disagree on a torn payload: one reports an error, the
      other counts a record whose bytes are not there. */
  lemma {:induction false} TornPayloadDisagrees(ps: seq<Payload>, torn: Payload, kept: nat)
    requires AllFit(ps) && Fits(torn)
    requires kept < |torn|
    requires Size(ps) + RecordBytes(torn) <= U64_MAX
    ensures var file := Encode(ps) + Frame(torn)[..HEADER_BYTES + kept];
            && Parse(file) == Err(TornPayload)
            && Scan(file) == Ok((Size(ps) + RecordBytes(torn), |ps| + 1))
  {
    var cut := Frame(torn)[..HEADER_BYTES + kept];
    TornFrame(torn, kept, (Size(ps), |ps|));
    ParseFrames(ps, cut);
    ScanFrames(ps, cut, (0, 0));
  }

  lemma {:induction false} TornFrame(torn: Payload, kept: nat, acc: (nat, nat))
    requires Fits(torn)
    requires kept < |torn|
    requires acc.0 + RecordBytes(torn) <= U64_MAX
    ensures var file := Frame(torn)[..HEADER_BYTES + kept];
            && Parse(file) == Err(TornPayload)
            && ScanFrom(file, acc) == Ok((acc.0 + RecordBytes(torn), acc.1 + 1))
  {
    FrameHead(torn, []);
    assert Frame(torn) + [] == Frame(torn);
    var file := Frame(torn)[..HEADER_BYTES + kept];
    assert file[..HEADER_BYTES] == Frame(torn)[..HEADER_BYTES];
    assert file[|file|..] == [];
  }

  /** A length so large that its sum with the header wraps around is counted as a
      few bytes; the reader refuses the file. */
  lemma {:induction false} HugeLengthWraps(ps: seq<Payload>, header: seq<byte>, rest: seq<byte>) returns (few: nat)
    requires AllFit(ps) && |header| == HEADER_BYTES && |Encode(ps) + (header + rest)| <= U64_MAX
    requires FromBigEndian(header) > U64_MAX - HEADER_BYTES
    ensures var file := Encode(ps) + (header + rest);
            few < HEADER_BYTES && Parse(file) == Err(TornPayload) && Scan(file) == Ok((Size(ps) + few, |ps| + 1))
  {
    EncodeLength(ps);
    few := HugeHeader(header, rest, (Size(ps), |ps|));
    ParseFrames(ps, header + rest);
    ScanFrames(ps, header + rest, (0, 0));
  }

  lemma {:induction false} HugeHeader(header: seq<byte>, rest: seq<byte>, acc: (nat, nat)) returns (few: nat)
    requires |header| == HEADER_BYTES && acc.0 + |header + rest| <= U64_MAX
    requires FromBigEndian(header) > U64_MAX - HEADER_BYTES
    ensures few < HEADER_BYTES && Parse(header + rest) == Err(TornPayload)
    ensures ScanFrom(header + rest, acc) == Ok((acc.0 + few, acc.1 + 1))
  {
    var file := header + rest;
    assert file[..HEADER_BYTES] == header;
    EncodeBigEndian(header);
    Pow256Eight();
    few := FrameBytes(FromBigEndian(header));
    assert file[|file|..] == [];
  }

  /** The scanner's totals are those of the records the reader returns if and only if
      the file is whole frames followed by less than a header. */
  lemma {:induction false} ScanAgreesIff(file: seq<byte>)
    requires |file| <= U64_MAX
    ensures (Parse(file).Ok? && Scan(file) == Ok((Size(Parse(file).value), |Parse(file).value|)))
            <==> exists ps, fragment :: AllFit(ps) && |fragment| < HEADER_BYTES && file == Encode(ps) + fragment
  {
    ParseSucceedsIff(file);
    if Parse(file).Ok? {
      ParsedIsEncoded(file);
      var ps := Parse(file).value;
      var fragment := file[|Encode(ps)|..];
      assert file == Encode(ps) + fragment;
      EncodeLength(ps);
      ParseEncode(ps, fragment);
    }
  }

  // ----- the loops over a file

  method ReadSegmentPayloads(file: seq<byte>) returns (r: Result<seq<Payload>, FramingError>)
    ensures r == Parse(file)
  {
    var payloads: seq<Payload> := [];
    var pos := 0;
    assert file[0..] == file;
    PrependTwice([], [], Parse(file));
    while |file| - pos >= HEADER_BYTES
      invariant 0 <= pos <= |file|
      invariant Parse(file) == Prepend(payloads, Parse(file[pos..]))
      decreases |file| - pos
    {
      ghost var tail := file[pos..];
      assert tail[..HEADER_BYTES] == file[pos..pos + HEADER_BYTES];
      var len := FromBigEndian(file[pos..pos + HEADER_BYTES]);
      if |file| - pos - HEADER_BYTES < len {
        return Err(TornPayload);
      }
      var next := pos + HEADER_BYTES + len;
      assert tail[HEADER_BYTES + len..] == file[next..];
      assert tail[HEADER_BYTES..HEADER_BYTES + len] == file[pos + HEADER_BYTES..next];
      PrependTwice(payloads, [file[pos + HEADER_BYTES..next]], Parse(file[next..]));
      payloads := payloads + [file[pos + HEADER_BYTES..next]];
      pos := next;
    }
    assert payloads + [] == payloads;
    r := Ok(payloads);
  }

  method ScanSegment(file: seq<byte>) returns (r: Result<(nat, nat), FramingError>)
    ensures r == Scan(file)
  {
    var bytes: nat, records: nat := 0, 0;
    var pos := 0;
    assert file[0..] == file;
    while |file| - pos >= HEADER_BYTES
      invariant 0 <= pos <= |file|
      invariant Scan(file) == ScanFrom(file[pos..], (bytes, records))
      decreases |file| - pos
    {
      ghost var tail := file[pos..];
      assert tail[..HEADER_BYTES] == file[pos..pos + HEADER_BYTES];
      var len := FromBigEndian(file[pos..pos + HEADER_BYTES]);
      var next := pos + Min(HEADER_BYTES + len, |file| - pos);
      assert tail[Min(HEADER_BYTES + len, |tail|)..] == file[next..];
      if bytes + FrameBytes(len) > U64_MAX {
        return Err(SizeOverflow);
      }
      bytes := bytes + FrameBytes(len);
      records := records + 1;
      pos := next;
    }
    r := Ok((bytes, records));
  }

  /** `rewrite_segment_records`: the truncated file rewritten frame by frame. */
  method WriteRecords(ps: seq<Payload>) returns (file: seq<byte>, bytes: nat, count: nat)
    ensures file == Encode(ps)
    ensures bytes == |file| == Size(ps)
    ensures count == |ps|
  {
    file, bytes, count := [], 0, 0;
    while count < |ps|
      invariant count <= |ps|
      invariant file == Encode(ps[..count])
      invariant bytes == Size(ps[..count])
    {
      assert ps[..count + 1] == ps[..count] + [ps[count]];
      EncodeConcat(ps[..count], [ps[count]]);
      EncodeOne(ps[count]);
      file := file + Frame(ps[count]);
      bytes := bytes + RecordBytes(ps[count]);
      count := count + 1;
    }
    assert ps[..count] == ps;
    EncodeLength(ps);
  }
}
