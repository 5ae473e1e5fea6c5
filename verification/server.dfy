/** The HTTP service as state transitions: the file registry, the shutdown
    flag and the file system are one state record, and each route is a
    function from the state and the request to the next state and the reply.
    Everything the outside world decides during a request (the generated id,
    the clock, the network's answers, the audio library's success) arrives
    as a `World` value. */
module Server {
  import opened Common
  import opened PyText
  import opened PyPath
  import opened JsonScrub
  import opened Downloader
  import opened Tagging

  /** A registered file older than this many seconds is swept. */
  const CleanupAge: real := 300.0

  /** A registry entry: where the tagged file lies, the name it was
      downloaded under, and when it was registered. */
  datatype Entry = Entry(path: string, filename: string, created: real)

  /** The service state. `tags` holds the container each tagged file on
      disk carries. */
  datatype State = State(
    registry: map<string, Entry>,
    shuttingDown: bool,
    disk: Files,
    tags: map<string, Container>)

  datatype Method = Post | Options

  /** A reply: a JSON status reply, the reply announcing a registered file,
      or a file sent as an attachment under a download name. */
  datatype Reply =
    | Status(code: int)
    | Registered(fileId: string)
    | Attachment(path: string, downloadName: string)

  function Code(r: Reply): int
  {
    match r
    case Status(c) => c
    case _ => 200
  }

  /** What the outside world decides during one `process_music` call. */
  datatype World = World(
    fileId: string,
    tempDir: string,
    now: real,
    head: HeadReply,
    fetch: (nat, Range) -> ChunkReply,
    single: StreamReply,
    retry: StreamReply,
    cover: Option<Bytes>,
    embedded: Container,
    libraryOk: bool)

  /** Where a download is first written. */
  function TempPath(dir: string, id: string, name: string): string
  {
    PathJoin(dir, id + "_" + name)
  }

  /** Where the tagged copy is kept until it is swept. */
  function ProcessedPath(dir: string, id: string, name: string): string
  {
    PathJoin(dir, "processed_" + id + "_" + name)
  }

  lemma JoinLength(dir: string, name: string)
    ensures |name| <= |PathJoin(dir, name)|
    ensures (|name| == 0 || !IsSep(name[0])) ==> |PathJoin(dir, name)| >= |dir| + |name|
    ensures (|name| == 0 || !IsSep(name[0])) ==> |PathJoin(dir, name)| <= |dir| + |name| + 1
    ensures (|name| == 0 || !IsSep(name[0])) ==>
              (|PathJoin(dir, name)| == |dir| + |name| <==> |dir| == 0 || IsSep(dir[|dir| - 1]))
  {
  }

  /** The download and its tagged copy never share a path, so copying one
      to the other and removing the first keeps the copy. */
  lemma TempIsNotProcessed(dir: string, id: string, name: string)
    ensures TempPath(dir, id, name) != ProcessedPath(dir, id, name)
  {
    var a := id + "_" + name;
    var b := "processed_" + id + "_" + name;
    assert |b| == |a| + 10;
    assert b[0] == 'p';
    JoinLength(dir, a);
    JoinLength(dir, b);
  }

  /** `data.get(key, '')`. */
  function GetOrEmpty(data: map<string, JsonValue>, key: string): JsonValue
  {
    if key in data then data[key] else JStr("")
  }

  /** The cover bytes: fetched only for a string `cover_url`; anything else
      makes the fetch raise, which yields `None`. */
  function CoverFor(data: map<string, JsonValue>, fetched: Option<Bytes>): Option<Bytes>
  {
    if "cover_url" in data && data["cover_url"].JStr? then fetched else None
  }

  /** The metadata record `process_music` builds from the request. */
  function MetadataFor(data: map<string, JsonValue>, cover: Option<Bytes>): Metadata
    requires "title" in data
  {
    Metadata(data["title"], GetOrEmpty(data, "artist"), GetOrEmpty(data, "album"),
             GetOrEmpty(data, "year"), GetOrEmpty(data, "lyrics"), GetOrEmpty(data, "tips"),
             CoverFor(data, cover))
  }

  /** Whether `q` is mapped the same way, or left out, in both maps. */
  predicate Keeps<V(==)>(before: map<string, V>, after: map<string, V>, q: string)
  {
    (q in after <==> q in before) && (q in before ==> after[q] == before[q])
  }

  /** The paths one `process_music` call may write or remove: the download,
      its part files and the tagged copy. */
  function Scratch(w: World, url: string): set<string>
  {
    var name := DownloadName(url);
    var temp := TempPath(w.tempDir, w.fileId, name);
    {temp, ProcessedPath(w.tempDir, w.fileId, name)} + PartPaths(temp, NumThreads)
  }

  /** The end of `process_music` once the download is on disk and not
      empty: copy it to the processed path, remove the download, tag the
      copy, and register it, or remove the copy if tagging fails. */
  function TagAndRegister(st: State, disk: Files, temp: string, processed: string, name: string,
                          tagged: Option<Container>, w: World): (r: (State, Reply))
    requires temp in disk && |disk[temp]| > 0 && temp != processed
    ensures r.0.shuttingDown == st.shuttingDown
    ensures r.1 == (if tagged.Some? then Registered(w.fileId) else Status(500))
    ensures tagged.Some? ==>
              && r.0.registry == st.registry[w.fileId := Entry(processed, name, w.now)]
              && processed in r.0.disk && r.0.disk[processed] == disk[temp]
              && temp !in r.0.disk
              && r.0.tags == st.tags[processed := tagged.value]
    ensures tagged.None? ==> r.0.registry == st.registry && processed !in r.0.disk && temp !in r.0.disk
                             && r.0.tags == st.tags
    ensures forall q :: q != temp && q != processed ==> Keeps(disk, r.0.disk, q)
    ensures forall q :: q != processed ==> Keeps(st.tags, r.0.tags, q)
  {
    var copied := disk[processed := disk[temp]] - {temp};
    match tagged
    case None => (st.(disk := copied - {processed}), Status(500))
    case Some(c) =>
      (State(st.registry[w.fileId := Entry(processed, name, w.now)], st.shuttingDown, copied, st.tags[processed := c]),
       Registered(w.fileId))
  }

  /** The outcome of `process_music`'s checks: refuse with a status code,
      or go on with the decoded object and its `url`. */
  datatype Gate = Refuse(code: int) | Proceed(data: map<string, JsonValue>, url: string)

  /** `process_music`'s checks, in the code's order: shutting down (503),
      pre-flight (200), a body that does not parse even after the scrub
      (400), a decoded value that is not an object (500: logging its title
      calls `.get` on it, which raises before any other test), an empty
      object (400), a missing `url` or `title` key (400), and a `url` that is
      not a string (500: it can be neither parsed nor fetched, and no file is
      written). */
  function Check(shuttingDown: bool, verb: Method, parsed: Option<JsonDoc>): (g: Gate)
    ensures shuttingDown ==> g == Refuse(503)
    ensures g.Proceed? <==>
              && !shuttingDown && verb == Post && parsed.Some? && parsed.value.JObject?
              && |parsed.value.fields| > 0
              && "url" in parsed.value.fields && "title" in parsed.value.fields
              && parsed.value.fields["url"].JStr?
    ensures g.Proceed? ==> g.data == parsed.value.fields && JStr(g.url) == g.data["url"]
    ensures (!shuttingDown && verb == Post && parsed.Some? && parsed.value.JObject?
             && ("url" !in parsed.value.fields || "title" !in parsed.value.fields))
            ==> g == Refuse(400)
    ensures !shuttingDown && verb == Options ==> g == Refuse(200)
    ensures !shuttingDown && verb == Post && parsed.None? ==> g == Refuse(400)
    ensures !shuttingDown && verb == Post && parsed.Some? && parsed.value.JNotObject? ==> g == Refuse(500)
    ensures (!shuttingDown && verb == Post && parsed.Some? && parsed.value.JObject?
             && "url" in parsed.value.fields && "title" in parsed.value.fields
             && !parsed.value.fields["url"].JStr?)
            ==> g == Refuse(500)
    ensures g.Refuse? ==> g.code in {200, 400, 500, 503}
  {
    if shuttingDown then Refuse(503)
    else if verb == Options then Refuse(200)
    else match parsed
      case None => Refuse(400)
      case Some(JNotObject(_)) => Refuse(500)
      case Some(JObject(data)) =>
        if |data| == 0 then Refuse(400)
        else if "url" !in data || "title" !in data then Refuse(400)
        else match data["url"]
          case JStr(url) =>
            assert verb == Post;
            assert |data| > 0;
            Proceed(data, url)
          case _ => Refuse(500)
  }

  /** The part of `process_music` after validation: parse the URL,
      download, check, copy, tag, register. Only the last step touches the
      registry, and only this request's scratch paths change on disk. */
  method Produce(st: State, data: map<string, JsonValue>, url: string, w: World) returns (next: State, reply: Reply)
    requires "title" in data && !st.shuttingDown
    ensures next.shuttingDown == st.shuttingDown
    ensures !UrlParses(url) ==> next == st && reply == Status(500)
    ensures var name := DownloadName(url);
            var temp := TempPath(w.tempDir, w.fileId, name);
            var downloaded := DownloadFile(st.disk, temp, w.head, w.fetch, w.single, w.retry);
            reply.Registered? <==>
              && UrlParses(url) && downloaded.0 && temp in downloaded.1 && |downloaded.1[temp]| > 0
              && AddMetadata(ProcessedPath(w.tempDir, w.fileId, name), MetadataFor(data, w.cover),
                             w.embedded, w.libraryOk).Some?
    ensures reply.Registered? ==>
              var name := DownloadName(url);
              var temp := TempPath(w.tempDir, w.fileId, name);
              var processed := ProcessedPath(w.tempDir, w.fileId, name);
              var downloaded := DownloadFile(st.disk, temp, w.head, w.fetch, w.single, w.retry);
              && reply.fileId == w.fileId
              && next.registry == st.registry[w.fileId := Entry(processed, name, w.now)]
              && temp in downloaded.1
              && processed in next.disk && next.disk[processed] == downloaded.1[temp]
              && temp !in next.disk
              && next.tags == st.tags[processed := AddMetadata(processed, MetadataFor(data, w.cover),
                                                               w.embedded, w.libraryOk).value]
              && DownloadEndpoint(next, w.fileId) == Attachment(processed, "processed_" + name)
              && |name| > 0 && NoSep(name)
    ensures !reply.Registered? ==> next.registry == st.registry && next.tags == st.tags && reply == Status(500)
    ensures forall q :: q !in Scratch(w, url) ==> Keeps(st.disk, next.disk, q)
    ensures forall q :: q != ProcessedPath(w.tempDir, w.fileId, DownloadName(url)) ==> Keeps(st.tags, next.tags, q)
    ensures Consistent(st, w.tempDir) ==> Consistent(next, w.tempDir)
  {
    if !UrlParses(url) {
      return st, Status(500);
    }
    var name := DownloadName(url);
    var temp := TempPath(w.tempDir, w.fileId, name);
    var downloaded := DownloadFile(st.disk, temp, w.head, w.fetch, w.single, w.retry);
    next, reply := Store(st, data, name, downloaded, w);
    DownloadFrame(st.disk, downloaded, next.disk, temp, ProcessedPath(w.tempDir, w.fileId, name));
  }

  /** The file system after the download: the only paths it changed are
      the download and its part files. */
  lemma DownloadFrame(files: Files, downloaded: (bool, Files), after: Files, temp: string, processed: string)
    requires forall q :: q != temp && q !in PartPaths(temp, NumThreads) ==> Keeps(files, downloaded.1, q)
    requires forall q :: q != temp && q != processed ==> Keeps(downloaded.1, after, q)
    ensures forall q :: q !in {temp, processed} + PartPaths(temp, NumThreads) ==> Keeps(files, after, q)
  {
    forall q | q !in {temp, processed} + PartPaths(temp, NumThreads)
      ensures Keeps(files, after, q)
    {
      assert Keeps(files, downloaded.1, q) && Keeps(downloaded.1, after, q);
    }
  }

  /** `process_music` once the download has returned: check it, then copy,
      tag and register. Only the download path and the tagged copy change
      on disk. */
  method Store(st: State, data: map<string, JsonValue>, name: string, downloaded: (bool, Files), w: World)
    returns (next: State, reply: Reply)
    requires "title" in data && !st.shuttingDown && |name| > 0 && NoSep(name)
    ensures next.shuttingDown == st.shuttingDown
    ensures var temp := TempPath(w.tempDir, w.fileId, name);
            reply.Registered? <==>
              && downloaded.0 && temp in downloaded.1 && |downloaded.1[temp]| > 0
              && AddMetadata(ProcessedPath(w.tempDir, w.fileId, name), MetadataFor(data, w.cover),
                             w.embedded, w.libraryOk).Some?
    ensures reply.Registered? ==>
              var temp := TempPath(w.tempDir, w.fileId, name);
              var processed := ProcessedPath(w.tempDir, w.fileId, name);
              && reply.fileId == w.fileId
              && next.registry == st.registry[w.fileId := Entry(processed, name, w.now)]
              && temp in downloaded.1
              && processed in next.disk && next.disk[processed] == downloaded.1[temp]
              && temp !in next.disk
              && next.tags == st.tags[processed := AddMetadata(processed, MetadataFor(data, w.cover),
                                                               w.embedded, w.libraryOk).value]
              && DownloadEndpoint(next, w.fileId) == Attachment(processed, "processed_" + name)
    ensures !reply.Registered? ==> next.registry == st.registry && next.tags == st.tags && reply == Status(500)
    ensures forall q :: q != TempPath(w.tempDir, w.fileId, name) && q != ProcessedPath(w.tempDir, w.fileId, name) ==>
              Keeps(downloaded.1, next.disk, q)
    ensures forall q :: q != ProcessedPath(w.tempDir, w.fileId, name) ==> Keeps(st.tags, next.tags, q)
    ensures Consistent(st, w.tempDir) ==> Consistent(next, w.tempDir)
  {
    var temp := TempPath(w.tempDir, w.fileId, name);
    var processed := ProcessedPath(w.tempDir, w.fileId, name);
    var disk := downloaded.1;
    if !downloaded.0 {
      return st.(disk := disk), Status(500);
    }
    if temp !in disk || |disk[temp]| == 0 {
      return st.(disk := disk - {temp}), Status(500);
    }
    TempIsNotProcessed(w.tempDir, w.fileId, name);
    var tagged := AddMetadata(processed, MetadataFor(data, w.cover), w.embedded, w.libraryOk);
    var r := TagAndRegister(st, disk, temp, processed, name, tagged, w);
    next, reply := r.0, r.1;
    if tagged.Some? {
      RegisterKeepsConsistent(st, next, w.tempDir, w.fileId, name, w.now);
      RegisteredIsServed(next, w.fileId);
    } else {
      assert next.registry == st.registry;
    }
  }

  /** Registering a plain name at its processed path keeps the registry
      consistent. */
  lemma RegisterKeepsConsistent(st: State, next: State, dir: string, id: string, name: string, now: real)
    requires next.registry == st.registry[id := Entry(ProcessedPath(dir, id, name), name, now)]
    requires |name| > 0 && NoSep(name)
    ensures Consistent(st, dir) ==> Consistent(next, dir)
  {
  }

  /** A registered id whose file is on disk is served under its name. */
  lemma RegisteredIsServed(st: State, id: string)
    requires !st.shuttingDown && id in st.registry && st.registry[id].path in st.disk
    ensures DownloadEndpoint(st, id) == Attachment(st.registry[id].path, "processed_" + st.registry[id].filename)
  {
  }

  /** `POST /process-music` (and its CORS pre-flight); `parse` is the JSON
      decoder. A refused request changes nothing; a body lacking `url` or
      `title` is refused before any download, a body that is not an object
      fails (500) before any download; a successful one registers
      exactly its new id, under the URL path's base name (or `audio.mp3`),
      and the download route then sends the tagged copy under `processed_`
      and that name. */
  method ProcessMusic(st: State, verb: Method, body: string, parse: string -> Option<JsonDoc>, w: World)
    returns (next: State, reply: Reply)
    ensures st.shuttingDown ==> next == st && reply == Status(503)
    ensures next.shuttingDown == st.shuttingDown
    ensures !reply.Registered? ==> next.registry == st.registry
    ensures reply.Status? && reply.code != 500 ==> next == st
    ensures var parsed := SafeJsonParse(parse, body);
            (!st.shuttingDown && verb == Post && parsed.Some? && parsed.value.JObject?
             && ("url" !in parsed.value.fields || "title" !in parsed.value.fields))
            ==> next == st && reply == Status(400)
    ensures var parsed := SafeJsonParse(parse, body);
            !st.shuttingDown && verb == Post && parsed.Some? && parsed.value.JNotObject?
            ==> next == st && reply == Status(500)
    ensures var g := Check(st.shuttingDown, verb, SafeJsonParse(parse, body));
            g.Refuse? ==> next == st && reply == Status(g.code)
    ensures var g := Check(st.shuttingDown, verb, SafeJsonParse(parse, body));
            g.Proceed? ==> forall q :: q !in Scratch(w, g.url) ==> Keeps(st.disk, next.disk, q)
    ensures var g := Check(st.shuttingDown, verb, SafeJsonParse(parse, body));
            g.Proceed? ==> forall q :: q != ProcessedPath(w.tempDir, w.fileId, DownloadName(g.url)) ==>
                             Keeps(st.tags, next.tags, q)
    ensures var g := Check(st.shuttingDown, verb, SafeJsonParse(parse, body));
            g.Proceed? && !UrlParses(g.url) ==> next == st && reply == Status(500)
    ensures !reply.Registered? ==> next.tags == st.tags
    ensures reply.Registered? ==>
              && verb == Post && SafeJsonParse(parse, body).Some? && SafeJsonParse(parse, body).value.JObject?
              && "url" in SafeJsonParse(parse, body).value.fields
              && SafeJsonParse(parse, body).value.fields["url"].JStr?
    ensures reply.Registered? ==>
              var data := SafeJsonParse(parse, body).value.fields;
              var name := DownloadName(data["url"].s);
              var processed := ProcessedPath(w.tempDir, w.fileId, name);
              && "title" in data
              && reply.fileId == w.fileId
              && next.registry == st.registry[w.fileId := Entry(processed, name, w.now)]
              && DownloadEndpoint(next, w.fileId) == Attachment(processed, "processed_" + name)
              && |name| > 0 && NoSep(name)
    ensures Consistent(st, w.tempDir) ==> Consistent(next, w.tempDir)
  {
    var parsed := SafeJsonParse<JsonDoc>(parse, body);
    var g := Check(st.shuttingDown, verb, parsed);
    if g.Refuse? {
      return st, Status(g.code);
    }
    assert parsed.value.fields == g.data && g.data["url"].s == g.url;
    next, reply := Produce(st, g.data, g.url, w);
  }

  /** `GET /download/<id>`: 503 while shutting down, 404 for an id not
      registered or whose file is gone, otherwise the file under the name
      `processed_` + its download name. */
  function DownloadEndpoint(st: State, id: string): (r: Reply)
    ensures st.shuttingDown ==> r == Status(503)
    ensures !st.shuttingDown && id !in st.registry ==> r == Status(404)
    ensures r.Attachment? ==> id in st.registry && r.path == st.registry[id].path && r.path in st.disk
                              && r.downloadName == "processed_" + st.registry[id].filename
    ensures !st.shuttingDown && id in st.registry ==> (r.Attachment? <==> st.registry[id].path in st.disk)
    ensures !st.shuttingDown && !r.Attachment? ==> r == Status(404)
  {
    if st.shuttingDown then Status(503)
    else if id !in st.registry then Status(404)
    else
      var e := st.registry[id];
      if e.path !in st.disk then Status(404)
      else Attachment(e.path, "processed_" + e.filename)
  }

  /** `GET /status`. */
  function StatusEndpoint(st: State): (r: Reply)
    ensures Code(r) == 503 <==> st.shuttingDown
    ensures Code(r) == 200 <==> !st.shuttingDown
  {
    if st.shuttingDown then Status(503) else Status(200)
  }

  /** `POST /shutdown`: the flag is set whatever happens next; without the
      development server's shutdown hook the handler raises (500). */
  function Shutdown(st: State, hookAvailable: bool): (r: (State, Reply))
    ensures r.0 == st.(shuttingDown := true)
    ensures Code(r.1) == (if hookAvailable then 200 else 500)
  {
    (st.(shuttingDown := true), if hookAvailable then Status(200) else Status(500))
  }

  /** Whether the sweeper would remove an entry at time `now`. */
  predicate Expired(e: Entry, now: real)
  {
    now - e.created > CleanupAge
  }

  /** One pass of the sweeper at time `now`: nothing while shutting down;
      otherwise every expired entry is dropped from the registry and its
      file and tags removed, and every other file keeps its bytes and tags. */
  function SweepPass(st: State, now: real): (r: State)
    ensures st.shuttingDown ==> r == st
    ensures r.shuttingDown == st.shuttingDown
    ensures !st.shuttingDown ==>
              forall id :: id in r.registry <==> id in st.registry && !Expired(st.registry[id], now)
    ensures forall id :: id in r.registry ==> r.registry[id] == st.registry[id]
    ensures !st.shuttingDown ==>
              forall id :: id in st.registry && Expired(st.registry[id], now) ==> st.registry[id].path !in r.disk
    ensures !st.shuttingDown ==>
              forall id :: id in st.registry && Expired(st.registry[id], now) ==> st.registry[id].path !in r.tags
    ensures forall p :: p in r.disk ==> p in st.disk && r.disk[p] == st.disk[p]
    ensures forall p :: (forall id :: id in st.registry && Expired(st.registry[id], now) ==> st.registry[id].path != p) ==>
              Keeps(st.disk, r.disk, p) && Keeps(st.tags, r.tags, p)
  {
    if st.shuttingDown then st
    else
      var swept := set id | id in st.registry && Expired(st.registry[id], now);
      var paths := set id | id in swept :: st.registry[id].path;
      State(map id | id in st.registry && id !in swept :: st.registry[id],
            st.shuttingDown, st.disk - paths, st.tags - paths)
  }

  // ----- properties across routes --------------------------------------------

  /** While the shutdown flag is set, every route that checks it answers 503
      and changes nothing. */
  lemma ShuttingDownRefusesAll(st: State, id: string, now: real)
    requires st.shuttingDown
    ensures DownloadEndpoint(st, id) == Status(503)
    ensures Code(StatusEndpoint(st)) == 503
    ensures SweepPass(st, now) == st
  {
  }

  /** Shutting down twice is shutting down once. */
  lemma ShutdownIdempotent(st: State, first: bool, second: bool)
    ensures Shutdown(Shutdown(st, first).0, second).0 == Shutdown(st, first).0
  {
  }

  /** After a shutdown, whether or not the hook was there, the service
      refuses downloads and reports that it is going down. */
  lemma ShutdownThenRefuse(st: State, hook: bool, id: string)
    ensures DownloadEndpoint(Shutdown(st, hook).0, id) == Status(503)
    ensures Code(StatusEndpoint(Shutdown(st, hook).0)) == 503
  {
  }

  /** After a sweep, an id that was swept, like one never issued, answers
      404. */
  lemma SweptIdIsGone(st: State, now: real, id: string)
    requires !st.shuttingDown
    requires id !in st.registry || Expired(st.registry[id], now)
    ensures DownloadEndpoint(SweepPass(st, now), id) == Status(404)
  {
  }

  /** An entry registered exactly `CleanupAge` seconds ago survives the
      sweep: the age test is strict. */
  lemma BoundaryAgeSurvives(st: State, id: string)
    requires !st.shuttingDown && id in st.registry
    ensures id in SweepPass(st, st.registry[id].created + CleanupAge).registry
  {
  }

  /** Sweeping twice at the same time removes nothing more. */
  lemma SweepIdempotent(st: State, now: real)
    ensures SweepPass(SweepPass(st, now), now) == SweepPass(st, now)
  {
    var once := SweepPass(st, now);
    var twice := SweepPass(once, now);
    assert twice.registry == once.registry;
    if !st.shuttingDown {
      var paths := set id | id in once.registry && Expired(once.registry[id], now) :: once.registry[id].path;
      assert paths == {};
      assert twice.disk == once.disk;
      assert twice.tags == once.tags;
    }
  }

  // ----- the registry invariant ----------------------------------------------

  /** Every registered entry points at the tagged copy made for its own id
      in the service's directory, and its download name is a plain
      non-empty file name. */
  ghost predicate Consistent(st: State, dir: string)
  {
    forall id :: id in st.registry ==>
      && st.registry[id].path == ProcessedPath(dir, id, st.registry[id].filename)
      && |st.registry[id].filename| > 0 && NoSep(st.registry[id].filename)
  }

  /** The sweep and the shutdown keep the registry consistent too. */
  lemma SweepKeepsConsistent(st: State, dir: string, now: real)
    requires Consistent(st, dir)
    ensures Consistent(SweepPass(st, now), dir)
  {
  }

  lemma ShutdownKeepsConsistent(st: State, dir: string, hook: bool)
    requires Consistent(st, dir)
    ensures Consistent(Shutdown(st, hook).0, dir)
  {
  }
}
