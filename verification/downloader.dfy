/** The chunked downloader: the file is split into inclusive byte ranges,
    each range is fetched with a `Range: bytes=start-end` request (section 2.1
    of RFC 7233) into its own part file, and the part files are concatenated in
    index order. A single unranged GET is the fallback.

    The network is a parameter: `fetch(i, r)` is what the request for chunk
    `i` with range `r` brought back, and `StreamReply`s are what the unranged
    GETs brought back. The file system is a map from path to contents. The
    worker pool is not modelled: every chunk's reply is known before the
    replies are inspected. */
module Downloader {
  import opened Common
  import opened PyText

  /** The number of chunks `download_file` asks for. */
  const NumThreads: nat := 8

  type Files = map<string, Bytes>

  /** An inclusive byte range, as written into the Range header. */
  datatype Range = Range(start: int, end: int)

  function Len(r: Range): int { r.end - r.start + 1 }

  /** The ranges follow one another without gap or overlap from byte 0. */
  ghost predicate Contiguous(rs: seq<Range>)
  {
    && |rs| > 0
    && rs[0].start == 0
    && forall i :: 0 < i < |rs| ==> rs[i].start == rs[i - 1].end + 1
  }

  /** `download_file_parallel`'s partition of `size` bytes into `n` ranges of
      `size // n` bytes, the last one absorbing the remainder. For
      `size < n` the first `n - 1` ranges are the empty `(0, -1)`. */
  function Partition(size: int, n: nat): (rs: seq<Range>)
    requires n >= 1
    ensures |rs| == n
    ensures Contiguous(rs)
    ensures rs[n - 1].end == size - 1
    ensures forall i :: 0 <= i < n - 1 ==> Len(rs[i]) == size / n
    ensures Len(rs[n - 1]) == size / n + size % n
  {
    var c := size / n;
    var rs := seq(n, i requires 0 <= i < n => Range(i * c, if i < n - 1 then i * c + c - 1 else size - 1));
    DivMod(size, n);
    PartitionShape(size, n, c, rs);
    rs
  }

  lemma DivMod(size: int, n: nat)
    requires n >= 1
    ensures size == n * (size / n) + size % n
  {
  }

  /** The shape facts of `Partition`, for ranges of `c` bytes starting at
      multiples of `c`. */
  lemma PartitionShape(size: int, n: nat, c: int, rs: seq<Range>)
    requires n >= 1 && |rs| == n && size == n * c + size % n
    requires forall i :: 0 <= i < n ==> rs[i] == Range(i * c, if i < n - 1 then i * c + c - 1 else size - 1)
    ensures Contiguous(rs)
    ensures rs[n - 1].end == size - 1
    ensures forall i :: 0 <= i < n - 1 ==> Len(rs[i]) == c
    ensures Len(rs[n - 1]) == c + size % n
  {
    assert rs[0].start == 0;
    forall i | 0 < i < n ensures rs[i].start == rs[i - 1].end + 1 {
      MulPred(i, c);
    }
    MulPred(n, c);
  }

  lemma MulPred(i: int, c: int)
    ensures (i - 1) * c + c == i * c
  {
  }

  function SumLen(rs: seq<Range>): int
  {
    if |rs| == 0 then 0 else SumLen(rs[..|rs| - 1]) + Len(rs[|rs| - 1])
  }

  /** Contiguous ranges from 0 cover exactly the bytes up to the last end. */
  lemma {:induction false} ContiguousSum(rs: seq<Range>)
    requires Contiguous(rs)
    ensures SumLen(rs) == rs[|rs| - 1].end + 1
    decreases |rs|
  {
    if |rs| > 1 {
      var front := rs[..|rs| - 1];
      forall i | 0 < i < |front|
        ensures front[i].start == front[i - 1].end + 1
      {
        assert front[i] == rs[i] && front[i - 1] == rs[i - 1];
      }
      ContiguousSum(front);
    }
  }

  /** The lengths of the partition add up to the file size. */
  lemma PartitionCoversSize(size: int, n: nat)
    requires n >= 1
    ensures SumLen(Partition(size, n)) == size
  {
    ContiguousSum(Partition(size, n));
  }

  lemma MulMonotone(a: int, b: int, c: int)
    requires 0 <= a <= b && 0 <= c
    ensures 0 <= a * c <= b * c
  {
  }

  /** When the file has at least one byte per chunk, every range is a
      non-empty stretch of the file. */
  lemma PartitionInBounds(size: int, n: nat)
    requires 1 <= n <= size
    ensures forall i :: 0 <= i < n ==> 0 <= Partition(size, n)[i].start <= Partition(size, n)[i].end < size
  {
    var rs := Partition(size, n);
    forall i | 0 <= i < n
      ensures 0 <= rs[i].start <= rs[i].end < size
    {
      RangeInBounds(size, n, i);
    }
  }

  lemma RangeInBounds(size: int, n: nat, i: nat)
    requires 1 <= n <= size && i < n
    ensures 0 <= Partition(size, n)[i].start <= Partition(size, n)[i].end < size
  {
    var c := size / n;
    assert size == n * c + size % n;
    assert c >= 1 by {
      if c <= 0 {
        MulMonotone(0, n, -c);
        assert false;
      }
    }
    var rs := Partition(size, n);
    assert rs[i] == Range(i * c, if i < n - 1 then i * c + c - 1 else size - 1);
    MulMonotone(i, n - 1, c);
    if i < n - 1 {
      MulMonotone(i + 1, n - 1, c);
      assert (i + 1) * c == i * c + c;
    }
    assert (n - 1) * c == n * c - c;
  }

  // ----- replies -------------------------------------------------------------

  /** What a ranged GET brought back: a 206 with the range, a 200 with the
      whole resource (the server ignored the Range header), or an exception
      (an error status, a broken stream); `leftover` is what the part file
      holds if it had been opened. */
  datatype ChunkReply =
    | Partial(data: Bytes)
    | Whole(data: Bytes)
    | ChunkFailed(leftover: Option<Bytes>)

  /** What an unranged GET brought back. */
  datatype StreamReply = Streamed(data: Bytes) | StreamFailed(leftover: Option<Bytes>)

  /** What the size probe brought back: the Content-Length (0 when the header
      is absent), or an exception (error status, unparsable header). */
  datatype HeadReply = HeadFailed | HeadOk(contentLength: int)

  /** The size probe as the code reads the HEAD reply: an error status
      raises, an absent Content-Length counts as 0, and a value `int()`
      refuses raises. */
  function ProbeSize(statusOk: bool, contentLength: Option<string>): (h: HeadReply)
    ensures !statusOk ==> h == HeadFailed
    ensures statusOk && contentLength.None? ==> h == HeadOk(0)
    ensures statusOk && contentLength.Some? ==>
              (h.HeadOk? <==> ParseInt(contentLength.value).Some?)
              && (h.HeadOk? ==> Some(h.contentLength) == ParseInt(contentLength.value))
  {
    if !statusOk then HeadFailed
    else match contentLength
      case None => HeadOk(0)
      case Some(text) =>
        match ParseInt(text)
        case None => HeadFailed
        case Some(n) => HeadOk(n)
  }

  /** A Content-Length written as a decimal numeral is read as its value. */
  lemma ProbeReadsNumeral(n: nat)
    ensures ProbeSize(true, Some(NatToStr(n))) == HeadOk(n)
  {
    IntRoundTrip(n);
  }

  /** A Content-Length holding an ASCII separator FS..US is refused by
      `int()`, so the probe fails and the download takes the single
      stream. */
  lemma ProbeRejectsSeparator()
    ensures ProbeSize(true, Some("\U{1C}5")) == HeadFailed
  {
    assert "\U{1C}5"[0] == '\U{1C}';
  }

  /** A server holding `content` answering `bytes=start-end`. A range with
      `end < start` is invalid (section 2.1 of RFC 7233); this server then
      ignores the header and sends the whole resource, which section 3.1
      permits (it recommends a 416 instead; `ServeOr416` is that server). A
      range starting past the end is unsatisfiable (416); one running past
      the end is cut at the end. A server that does not honour ranges always
      sends the whole resource. */
  function Serve(content: Bytes, r: Range, honoursRanges: bool): ChunkReply
  {
    if honoursRanges && 0 <= r.start <= r.end then
      if r.start < |content| then
        Partial(content[r.start..if r.end + 1 < |content| then r.end + 1 else |content|])
      else ChunkFailed(None)
    else Whole(content)
  }

  /** A server that honours ranges and answers an invalid range with 416,
      as section 3.1 of RFC 7233 recommends. */
  function ServeOr416(content: Bytes, r: Range): ChunkReply
  {
    if r.start <= r.end then Serve(content, r, true) else ChunkFailed(None)
  }

  /** The bytes a reply leaves in its part file, if it opened one. */
  function PartData(reply: ChunkReply): Option<Bytes>
  {
    match reply
    case Partial(d) => Some(d)
    case Whole(d) => Some(d)
    case ChunkFailed(l) => l
  }

  // ----- part files ----------------------------------------------------------

  /** `f"{file_path}.part{i}"`. */
  function PartPath(path: string, i: nat): (p: string)
    ensures |p| > |path| && p[..|path|] == path
  {
    path + ".part" + NatToStr(i)
  }

  function PartPaths(path: string, n: nat): set<string>
  {
    set i | 0 <= i < n :: PartPath(path, i)
  }

  /** The chunk file and the destination never coincide. */
  lemma PartPathIsNotPath(path: string, n: nat)
    ensures path !in PartPaths(path, n)
  {
  }

  /** The replies, in chunk order, to the requests for `ranges`. */
  function Replies(fetch: (nat, Range) -> ChunkReply, ranges: seq<Range>): (rs: seq<ChunkReply>)
    ensures |rs| == |ranges|
    ensures forall i :: 0 <= i < |ranges| ==> rs[i] == fetch(i, ranges[i])
  {
    seq(|ranges|, i requires 0 <= i < |ranges| => fetch(i, ranges[i]))
  }

  /** The file system once every chunk has written (or not) its part file. */
  function WriteParts(files: Files, path: string, replies: seq<ChunkReply>): (f: Files)
    ensures forall i :: 0 <= i < |replies| && PartData(replies[i]).Some? ==> PartPath(path, i) in f
    ensures forall q :: q in f ==> q in files || q in PartPaths(path, |replies|)
    ensures forall q :: q in files && q !in PartPaths(path, |replies|) ==> q in f && f[q] == files[q]
  {
    if |replies| == 0 then files
    else
      var front := WriteParts(files, path, replies[..|replies| - 1]);
      assert PartPaths(path, |replies| - 1) <= PartPaths(path, |replies|);
      match PartData(replies[|replies| - 1])
      case Some(d) => front[PartPath(path, |replies| - 1) := d]
      case None => front
  }

  /** The cleanup loop: every `.part{i}` for `i < n` that exists is removed. */
  function RemoveParts(files: Files, path: string, n: nat): (f: Files)
    ensures f.Keys == files.Keys - PartPaths(path, n)
    ensures forall q :: q in f ==> f[q] == files[q]
  {
    files - PartPaths(path, n)
  }

  /** The part files concatenated in index order. */
  function Merge(replies: seq<ChunkReply>): Bytes
  {
    if |replies| == 0 then []
    else
      Merge(replies[..|replies| - 1])
        + match PartData(replies[|replies| - 1]) case Some(d) => d case None => []
  }

  // ----- the download paths --------------------------------------------------

  /** `download_file_single`: the body is streamed into `path`. A stream that
      breaks leaves what it wrote behind. */
  function DownloadSingle(files: Files, path: string, reply: StreamReply): (r: (bool, Files))
    ensures r.0 <==> reply.Streamed?
    ensures r.0 ==> path in r.1 && r.1[path] == reply.data
    ensures forall q :: q != path ==> (q in r.1 <==> q in files) && (q in files ==> r.1[q] == files[q])
  {
    match reply
    case Streamed(d) => (true, files[path := d])
    case StreamFailed(Some(partial)) => (false, files[path := partial])
    case StreamFailed(None) => (false, files)
  }

  /** Whether the downloader takes a chunk reply as the chunk. The code as
      written accepts any reply that raised no exception; requiring a 206 is
      the corrected rule. */
  predicate Accepted(reply: ChunkReply, requirePartial: bool)
  {
    if requirePartial then reply.Partial? else !reply.ChunkFailed?
  }

  /** `download_file_parallel(url, path, n)`, with the chunk acceptance rule
      as a parameter. A failed size probe and `n == 0` (the division raises)
      take the exception path: remove the part files, report failure. A size
      of 0 goes to the single stream. Otherwise the chunks are fetched; if any
      is not accepted, every part file is removed and the download fails;
      if all are, they are merged into `path` and removed. */
  function Parallel(files: Files, path: string, n: nat, head: HeadReply,
                    fetch: (nat, Range) -> ChunkReply, single: StreamReply,
                    requirePartial: bool): (r: (bool, Files))
    ensures head == HeadOk(0) ==> r == DownloadSingle(files, path, single)
    ensures head != HeadOk(0) ==> PartPaths(path, n) !! r.1.Keys
    ensures forall q :: q != path && q !in PartPaths(path, n) ==>
              (q in r.1 <==> q in files) && (q in files ==> r.1[q] == files[q])
    ensures head.HeadOk? && head.contentLength != 0 && n >= 1 ==>
              (r.0 <==> forall i :: 0 <= i < n ==>
                 Accepted(fetch(i, Partition(head.contentLength, n)[i]), requirePartial))
    ensures head.HeadOk? && head.contentLength != 0 && n >= 1 && r.0 ==>
              path in r.1 && r.1[path] == Merge(Replies(fetch, Partition(head.contentLength, n)))
    ensures head.HeadFailed? || (n == 0 && head != HeadOk(0)) ==> !r.0
  {
    match head
    case HeadFailed => (false, RemoveParts(files, path, n))
    case HeadOk(size) =>
      if size == 0 then DownloadSingle(files, path, single)
      else if n == 0 then (false, RemoveParts(files, path, n))
      else
        var replies := Replies(fetch, Partition(size, n));
        var written := WriteParts(files, path, replies);
        PartPathIsNotPath(path, n);
        if forall i :: 0 <= i < n ==> Accepted(replies[i], requirePartial) then
          (true, RemoveParts(written, path, n)[path := Merge(replies)])
        else (false, RemoveParts(written, path, n))
  }

  /** The downloader as the code is written: a 200 reply to a ranged request
      is taken as the chunk. */
  function DownloadParallelAsWritten(files: Files, path: string, n: nat, head: HeadReply,
                                     fetch: (nat, Range) -> ChunkReply, single: StreamReply): (bool, Files)
  {
    Parallel(files, path, n, head, fetch, single, false)
  }

  /** The corrected downloader: only a 206 reply is taken as the chunk, so a
      server that ignores the Range header sends the download to the single
      stream instead of into the merge. */
  function DownloadParallel(files: Files, path: string, n: nat, head: HeadReply,
                            fetch: (nat, Range) -> ChunkReply, single: StreamReply): (bool, Files)
  {
    Parallel(files, path, n, head, fetch, single, true)
  }

  /** `download_file`, with the chunk acceptance rule as a parameter: the
      parallel download with `NumThreads` chunks, then one more
      single-stream attempt if it failed. */
  function Download(files: Files, path: string, head: HeadReply,
                    fetch: (nat, Range) -> ChunkReply, single: StreamReply,
                    retry: StreamReply, requirePartial: bool): (r: (bool, Files))
    ensures r.0 <==> Parallel(files, path, NumThreads, head, fetch, single, requirePartial).0 || retry.Streamed?
    ensures head.HeadOk? && head.contentLength != 0
            && Parallel(files, path, NumThreads, head, fetch, single, requirePartial).0 ==>
              path in r.1 && r.1[path] == Merge(Replies(fetch, Partition(head.contentLength, NumThreads)))
    ensures head == HeadOk(0) && single.Streamed? ==> r.0 && path in r.1 && r.1[path] == single.data
    ensures !Parallel(files, path, NumThreads, head, fetch, single, requirePartial).0 && r.0 ==>
              path in r.1 && r.1[path] == retry.data
    ensures forall q :: q != path && q !in PartPaths(path, NumThreads) ==>
              (q in r.1 <==> q in files) && (q in files ==> r.1[q] == files[q])
  {
    var (ok, afterParallel) := Parallel(files, path, NumThreads, head, fetch, single, requirePartial);
    if ok then (true, afterParallel) else DownloadSingle(afterParallel, path, retry)
  }

  /** `download_file` as the code is written. */
  function DownloadFile(files: Files, path: string, head: HeadReply,
                        fetch: (nat, Range) -> ChunkReply, single: StreamReply,
                        retry: StreamReply): (bool, Files)
  {
    Download(files, path, head, fetch, single, retry, false)
  }

  /** `download_file` with the corrected chunk acceptance rule. */
  function DownloadFileCorrected(files: Files, path: string, head: HeadReply,
                                 fetch: (nat, Range) -> ChunkReply, single: StreamReply,
                                 retry: StreamReply): (bool, Files)
  {
    Download(files, path, head, fetch, single, retry, true)
  }

  // ----- reassembly ----------------------------------------------------------

  /** A server that either answers as `Serve` does or fails the request. */
  ghost predicate ServesOrFails(fetch: (nat, Range) -> ChunkReply, content: Bytes, honoursRanges: bool)
  {
    forall i, r :: fetch(i, r) == Serve(content, r, honoursRanges) || fetch(i, r).ChunkFailed?
  }

  /** Merging the 206 replies to contiguous in-bounds ranges yields the
      resource up to the last range's end. */
  lemma {:induction false} MergeOfSlices(content: Bytes, rs: seq<Range>, replies: seq<ChunkReply>)
    requires Contiguous(rs) && |replies| == |rs|
    requires forall i :: 0 <= i < |rs| ==> 0 <= rs[i].start <= rs[i].end < |content|
    requires forall i :: 0 <= i < |rs| ==> replies[i] == Partial(content[rs[i].start..rs[i].end + 1])
    ensures Merge(replies) == content[..rs[|rs| - 1].end + 1]
    decreases |rs|
  {
    var k := |rs| - 1;
    MergeLast(replies);
    if k > 0 {
      var front := rs[..k];
      ContiguousFront(rs, k);
      MergeOfSlices(content, front, replies[..k]);
      SliceConcat(content, rs[k].start, rs[k].end + 1);
    } else {
      assert Merge(replies[..0]) == [];
    }
  }

  /** A prefix of contiguous ranges is contiguous. */
  lemma ContiguousFront(rs: seq<Range>, k: nat)
    requires Contiguous(rs) && 0 < k <= |rs|
    ensures Contiguous(rs[..k])
  {
    forall i | 0 < i < k
      ensures rs[..k][i].start == rs[..k][i - 1].end + 1
    {
      assert rs[..k][i] == rs[i] && rs[..k][i - 1] == rs[i - 1];
    }
  }

  /** The merge ends with the last part file. */
  lemma MergeLast(replies: seq<ChunkReply>)
    requires |replies| > 0 && PartData(replies[|replies| - 1]).Some?
    ensures Merge(replies) == Merge(replies[..|replies| - 1]) + PartData(replies[|replies| - 1]).value
  {
  }

  lemma SliceConcat(content: Bytes, b: int, c: int)
    requires 0 <= b <= c <= |content|
    ensures content[..b] + content[b..c] == content[..c]
  {
  }

  /** A server that honours ranges and a file of at least `n` bytes: every
      chunk comes back as a 206 with its slice, so the merge restores the
      resource byte for byte. This holds for the downloader as written and
      for the corrected one. */
  lemma ReassemblyRestoresContent(files: Files, path: string, n: nat, content: Bytes,
                                  fetch: (nat, Range) -> ChunkReply, single: StreamReply,
                                  requirePartial: bool)
    requires 1 <= n <= |content|
    requires forall i, r :: fetch(i, r) == Serve(content, r, true)
    ensures Parallel(files, path, n, HeadOk(|content|), fetch, single, requirePartial).0
    ensures path in Parallel(files, path, n, HeadOk(|content|), fetch, single, requirePartial).1
    ensures Parallel(files, path, n, HeadOk(|content|), fetch, single, requirePartial).1[path] == content
  {
    var rs := Partition(|content|, n);
    PartitionInBounds(|content|, n);
    ServedSlices(content, rs, fetch);
    var replies := Replies(fetch, rs);
    MergeOfSlices(content, rs, replies);
    ParallelMerges(files, path, n, |content|, fetch, single, requirePartial);
    assert content[..|content|] == content;
  }

  /** A server that honours ranges answers in-bounds ranges with their
      slices. */
  lemma ServedSlices(content: Bytes, rs: seq<Range>, fetch: (nat, Range) -> ChunkReply)
    requires forall i :: 0 <= i < |rs| ==> 0 <= rs[i].start <= rs[i].end < |content|
    requires forall i, r :: fetch(i, r) == Serve(content, r, true)
    ensures forall i :: 0 <= i < |rs| ==> Replies(fetch, rs)[i] == Partial(content[rs[i].start..rs[i].end + 1])
  {
  }

  /** When every chunk is accepted the download succeeds with the merge. */
  lemma ParallelMerges(files: Files, path: string, n: nat, size: int,
                       fetch: (nat, Range) -> ChunkReply, single: StreamReply, requirePartial: bool)
    requires size != 0 && n >= 1
    requires forall i :: 0 <= i < n ==> Replies(fetch, Partition(size, n))[i].Partial?
    ensures Parallel(files, path, n, HeadOk(size), fetch, single, requirePartial).0
    ensures path in Parallel(files, path, n, HeadOk(size), fetch, single, requirePartial).1
    ensures Parallel(files, path, n, HeadOk(size), fetch, single, requirePartial).1[path]
         == Merge(Replies(fetch, Partition(size, n)))
  {
    var rs := Partition(size, n);
    var replies := Replies(fetch, rs);
    forall i | 0 <= i < n
      ensures Accepted(fetch(i, rs[i]), requirePartial)
    {
      assert replies[i] == fetch(i, rs[i]);
    }
  }

  /** With the corrected rule, whatever the server does and whichever chunks
      fail, a parallel download that succeeds has written exactly the
      resource. */
  lemma CorrectedSuccessIsExact(files: Files, path: string, n: nat, content: Bytes,
                                fetch: (nat, Range) -> ChunkReply, single: StreamReply,
                                honoursRanges: bool)
    requires |content| > 0
    requires ServesOrFails(fetch, content, honoursRanges)
    requires DownloadParallel(files, path, n, HeadOk(|content|), fetch, single).0
    ensures path in DownloadParallel(files, path, n, HeadOk(|content|), fetch, single).1
    ensures DownloadParallel(files, path, n, HeadOk(|content|), fetch, single).1[path] == content
  {
    var size := |content|;
    CorrectedSuccess(files, path, n, size, fetch, single);
    var rs := Partition(size, n);
    var replies := Replies(fetch, rs);
    assert forall i :: 0 <= i < n ==> replies[i] == fetch(i, rs[i]);
    PartialRepliesAreSlices(content, rs, replies, honoursRanges);
    if n > size {
      ShortFileHasNoFirstPart(content, n, replies[0], honoursRanges);
      assert false;
    }
    PartitionInBounds(size, n);
    MergeOfSlices(content, rs, replies);
    assert content[..size] == content;
  }

  /** A corrected download that succeeds got a 206 for every chunk and wrote
      their merge. */
  lemma CorrectedSuccess(files: Files, path: string, n: nat, size: int,
                         fetch: (nat, Range) -> ChunkReply, single: StreamReply)
    requires size != 0 && DownloadParallel(files, path, n, HeadOk(size), fetch, single).0
    ensures n >= 1
    ensures forall i :: 0 <= i < n ==> Replies(fetch, Partition(size, n))[i].Partial?
    ensures path in DownloadParallel(files, path, n, HeadOk(size), fetch, single).1
    ensures DownloadParallel(files, path, n, HeadOk(size), fetch, single).1[path]
         == Merge(Replies(fetch, Partition(size, n)))
  {
    assert n >= 1;
    var rs := Partition(size, n);
    var replies := Replies(fetch, rs);
    forall i | 0 <= i < n
      ensures replies[i].Partial?
    {
      assert replies[i] == fetch(i, rs[i]);
    }
  }

  /** For a file shorter than the chunk count the first range is invalid,
      so the first chunk is never a 206. */
  lemma ShortFileHasNoFirstPart(content: Bytes, n: nat, reply: ChunkReply, honoursRanges: bool)
    requires 0 < |content| < n
    requires reply == Serve(content, Partition(|content|, n)[0], honoursRanges) || reply.ChunkFailed?
    ensures !reply.Partial?
  {
    ShortFileFirstRange(|content|, n);
  }

  /** A file shorter than the chunk count: the first range is the empty
      `(0, -1)`. */
  lemma ShortFileFirstRange(size: int, n: nat)
    requires 0 <= size < n
    ensures Partition(size, n)[0] == Range(0, -1)
  {
    assert size / n == 0;
  }

  /** A 206 from `Serve` only answers a valid range and carries its slice. */
  lemma PartialRepliesAreSlices(content: Bytes, rs: seq<Range>, replies: seq<ChunkReply>, honoursRanges: bool)
    requires |replies| == |rs|
    requires forall i :: 0 <= i < |rs| ==> replies[i].Partial?
    requires forall i :: 0 <= i < |rs| ==> replies[i] == Serve(content, rs[i], honoursRanges) || replies[i].ChunkFailed?
    ensures forall i :: 0 <= i < |rs| ==> 0 <= rs[i].start <= rs[i].end
    ensures forall i :: 0 <= i < |rs| && rs[i].end < |content| ==>
              replies[i] == Partial(content[rs[i].start..rs[i].end + 1])
  {
  }

  /** The code as written, on a file shorter than the chunk count, from a
      server that honours ranges but ignores the invalid ones: the empty
      ranges `(0, -1)` are each answered with the whole resource, and the
      "successful" download is `n` copies of the file. */
  lemma {:induction false} AsWrittenCorruptsShortFile(files: Files, path: string, n: nat, content: Bytes,
                                   fetch: (nat, Range) -> ChunkReply, single: StreamReply)
    requires 0 < |content| < n
    requires forall i, r :: fetch(i, r) == Serve(content, r, true)
    ensures DownloadParallelAsWritten(files, path, n, HeadOk(|content|), fetch, single).0
    ensures path in DownloadParallelAsWritten(files, path, n, HeadOk(|content|), fetch, single).1
    ensures |DownloadParallelAsWritten(files, path, n, HeadOk(|content|), fetch, single).1[path]| == n * |content|
    ensures DownloadParallelAsWritten(files, path, n, HeadOk(|content|), fetch, single).1[path] != content
  {
    var size := |content|;
    ShortFileReplies(content, n, fetch);
    MergeLength(Replies(fetch, Partition(size, n)), size);
    CopiesAreLonger(n, size);
  }

  /** The ranges of a file shorter than the chunk count: all empty `(0, -1)`
      but the last, which is the whole file. */
  lemma ShortFilePartition(size: int, n: nat)
    requires 0 < size < n
    ensures forall i :: 0 <= i < n - 1 ==> Partition(size, n)[i] == Range(0, -1)
    ensures Partition(size, n)[n - 1] == Range(0, size - 1)
  {
    assert size / n == 0;
  }

  /** A server that honours ranges sends the whole file for each of those
      ranges: a 200 for the invalid ones, a 206 for the last. */
  lemma ShortFileReplies(content: Bytes, n: nat, fetch: (nat, Range) -> ChunkReply)
    requires 0 < |content| < n
    requires forall i, r :: fetch(i, r) == Serve(content, r, true)
    ensures var replies := Replies(fetch, Partition(|content|, n));
            && (forall i :: 0 <= i < n ==> Accepted(replies[i], false))
            && (forall i :: 0 <= i < n ==> PartData(replies[i]).Some? && |PartData(replies[i]).value| == |content|)
  {
    var size := |content|;
    ShortFilePartition(size, n);
    var rs := Partition(size, n);
    var replies := Replies(fetch, rs);
    assert forall i :: 0 <= i < n - 1 ==> replies[i] == Whole(content);
    assert replies[n - 1] == Partial(content[0..size]);
  }

  lemma CopiesAreLonger(n: nat, m: nat)
    requires 0 < m && 1 < n
    ensures n * m != m
  {
  }

  /** Replies that all carry `m` bytes merge into `|replies| * m` bytes. */
  lemma {:induction false} MergeLength(replies: seq<ChunkReply>, m: nat)
    requires forall i :: 0 <= i < |replies| ==> PartData(replies[i]).Some? && |PartData(replies[i]).value| == m
    ensures |Merge(replies)| == |replies| * m
    decreases |replies|
  {
    if |replies| > 0 {
      MergeLength(replies[..|replies| - 1], m);
    }
  }

  /** On replies that are all 206 the corrected rule changes nothing. */
  lemma CorrectionAgreesOnPartialReplies(files: Files, path: string, n: nat, head: HeadReply,
                                         fetch: (nat, Range) -> ChunkReply, single: StreamReply)
    requires forall i, r :: !fetch(i, r).Whole?
    ensures DownloadParallel(files, path, n, head, fetch, single)
         == DownloadParallelAsWritten(files, path, n, head, fetch, single)
  {
  }

  /** The code as written, from a server that ignores the Range header,
      whatever the file's size: every chunk request is answered 200 with
      the whole file, every reply is accepted, and the download "succeeds"
      with `NumThreads` copies of the file. */
  lemma {:induction false} IgnoredRangesCorruptDownload(files: Files, path: string, content: Bytes,
                                                        fetch: (nat, Range) -> ChunkReply,
                                                        single: StreamReply, retry: StreamReply)
    requires |content| > 0
    requires forall i, r :: fetch(i, r) == Serve(content, r, false)
    ensures DownloadFile(files, path, HeadOk(|content|), fetch, single, retry).0
    ensures path in DownloadFile(files, path, HeadOk(|content|), fetch, single, retry).1
    ensures |DownloadFile(files, path, HeadOk(|content|), fetch, single, retry).1[path]| == NumThreads * |content|
    ensures DownloadFile(files, path, HeadOk(|content|), fetch, single, retry).1[path] != content
  {
    var replies := Replies(fetch, Partition(|content|, NumThreads));
    assert forall i :: 0 <= i < |replies| ==> replies[i] == Whole(content);
    MergeLength(replies, |content|);
    CopiesAreLonger(NumThreads, |content|);
  }

  /** The corrected download, from a server that either answers ranges as
      `Serve` does (honouring them or not) or fails, with a retry stream
      that is either the file or a failure: whenever it succeeds the target
      holds exactly the file. */
  lemma CorrectedDownloadIsExact(files: Files, path: string, content: Bytes,
                                 fetch: (nat, Range) -> ChunkReply, single: StreamReply,
                                 retry: StreamReply, honoursRanges: bool)
    requires |content| > 0
    requires ServesOrFails(fetch, content, honoursRanges)
    requires retry.Streamed? ==> retry.data == content
    ensures DownloadFileCorrected(files, path, HeadOk(|content|), fetch, single, retry).0 ==>
              && path in DownloadFileCorrected(files, path, HeadOk(|content|), fetch, single, retry).1
              && DownloadFileCorrected(files, path, HeadOk(|content|), fetch, single, retry).1[path] == content
  {
    if DownloadParallel(files, path, NumThreads, HeadOk(|content|), fetch, single).0 {
      CorrectedSuccessIsExact(files, path, NumThreads, content, fetch, single, honoursRanges);
    }
  }

  /** The corrected download, from a server that ignores the Range header:
      the parallel path fails and the result is the retry stream's. */
  lemma CorrectedFallsBackOnIgnoredRanges(files: Files, path: string, content: Bytes,
                                          fetch: (nat, Range) -> ChunkReply,
                                          single: StreamReply, retry: StreamReply)
    requires |content| > 0
    requires forall i, r :: fetch(i, r) == Serve(content, r, false)
    ensures DownloadFileCorrected(files, path, HeadOk(|content|), fetch, single, retry).0 <==> retry.Streamed?
    ensures retry.Streamed? ==>
              && path in DownloadFileCorrected(files, path, HeadOk(|content|), fetch, single, retry).1
              && DownloadFileCorrected(files, path, HeadOk(|content|), fetch, single, retry).1[path] == retry.data
  {
    var rs := Partition(|content|, NumThreads);
    assert !Accepted(fetch(0, rs[0]), true);
  }

  /** The code as written, on a file shorter than the chunk count, from a
      server that answers the invalid `(0, -1)` ranges with 416: the first
      chunk fails, and the download is whatever the retry stream brings. */
  lemma AsWrittenFallsBackOn416(files: Files, path: string, content: Bytes,
                                fetch: (nat, Range) -> ChunkReply,
                                single: StreamReply, retry: StreamReply)
    requires 0 < |content| < NumThreads
    requires forall i, r :: fetch(i, r) == ServeOr416(content, r)
    ensures DownloadFile(files, path, HeadOk(|content|), fetch, single, retry).0 <==> retry.Streamed?
    ensures retry.Streamed? ==>
              && path in DownloadFile(files, path, HeadOk(|content|), fetch, single, retry).1
              && DownloadFile(files, path, HeadOk(|content|), fetch, single, retry).1[path] == retry.data
  {
    ShortFileFirstRange(|content|, NumThreads);
    assert fetch(0, Partition(|content|, NumThreads)[0]).ChunkFailed?;
  }
}
