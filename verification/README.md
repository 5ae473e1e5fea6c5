# Music metadata server — a Dafny model

This project models the core of a small desktop tool that downloads a music
file, writes the caller's metadata into its tags, and serves the tagged copy
for download. It has two programs:

- **The server (`server_main.py`)** accepts a JSON request. It downloads the
  audio, either as eight parallel byte ranges or as one stream, and then
  writes title, artist, album, year, lyrics, comment and cover into the
  file's tag container. It registers the result under a fresh id, serves it
  on `/download/<id>` and sweeps it away after 300 seconds.
- **The desktop front end (`app_gui.py`)** checks for a newer release by
  comparing dotted version numbers. It also validates the port typed into
  its settings dialog, and it loads and saves a configuration file whose
  host is always pinned to `127.0.0.1`.

The model is functional:

- The file system is a map from path to bytes.
- A tag container is a map from slot to tag value.
- The service state is a record of the registry, the shutdown flag, the
  files and their tags.
- Each route is a transition from state to state and reply.

Everything the outside world decides is a parameter:

- the network's replies to the HEAD, ranged and streamed requests;
- whether the audio library manages to open and save a file;
- the generated id;
- the clock;
- the user's answer to the confirmation prompt.

Modules, one file each:

| file | module | models |
|---|---|---|
| common.dfy | Common | Option, bytes, decoded JSON values and their truthiness |
| pytext.dfy | PyText | `str.strip`, `int(text)` (which skips a narrower whitespace set than `str.strip`), `str(n)`, `str.split`, ASCII lower-casing |
| pypath.dfy | PyPath | Windows `os.path.basename`/`splitext`/`join`, `urlparse(url).path` |
| jsonscrub.dfy | JsonScrub | `safe_json_parse` and its control-character scrub |
| downloader.dfy | Downloader | range partition, parallel download, reassembly, single-stream fallback |
| tagging.dfy | Tagging | `add_metadata_to_file` dispatch and the six per-format writers |
| server.dfy | Server | `process_music`, `download_file_endpoint`, `status`, `shutdown`, the sweep pass |
| versions.dfy | Versions | `version_to_tuple`, `compare_versions`, latest-release selection |
| settings.dfy | Settings | `on_save` port check, `load_settings`, `save_settings` |

The host is taken to be Windows: the front end hides its console through
`ctypes.windll` when that exists, and the program ships as a Windows
executable. `os.path` is therefore `ntpath`, with `/` and `\` as separators.

## Model

| member | source | states |
|---|---|---|
| JsonScrub.Scrub | server_main.py:69 | the scrubbed text is no longer than the input, holds no scrubbed character, and holds only characters of the input |
| JsonScrub.ScrubbedSet | server_main.py:69 | the deleted set is exactly U+0000–U+0008, U+000B, U+000C, U+000E–U+001F and U+007F: the RFC 8259 section 7 controls minus TAB, LF and CR, plus DEL |
| JsonScrub.ScrubAppend | server_main.py:69 | the scrub works character by character, so scrubbing a concatenation concatenates the scrubbed parts and the kept characters stay in order |
| JsonScrub.ScrubFixedPoint | server_main.py:69 | a text is its own scrub exactly when it holds no scrubbed character |
| JsonScrub.ScrubIdempotent | server_main.py:69 | scrubbing twice removes nothing more |
| JsonScrub.ScrubCounts | server_main.py:69 | every kept character occurs as often as in the input; every scrubbed one is gone |
| JsonScrub.CleanBodyParsesPlainly | server_main.py:63-72 | on a body without scrubbed characters the tolerant parse equals the plain parse |
| Downloader.Partition | server_main.py:124-130 | exactly n ranges, contiguous from byte 0; the last ends at size-1; every range but the last has length size // n, and the last absorbs the remainder |
| Downloader.PartitionCoversSize | server_main.py:124-130 | the range lengths sum to the file size |
| Downloader.PartitionInBounds | server_main.py:124-130 | when size >= n every range is a non-empty range inside the file |
| Downloader.ShortFileFirstRange | server_main.py:124-129 | when size < n the first range is (0, -1) |
| Downloader.ShortFilePartition | server_main.py:124-129 | when 0 < size < n every range but the last is (0, -1), and the last is the whole file |
| Downloader.ProbeReadsNumeral | server_main.py:114 | a decimal Content-Length is read back as its number |
| Downloader.ProbeRejectsSeparator | server_main.py:114 | a Content-Length of "\x1c5" makes `int()` raise, so the probe fails |
| Downloader.PartPath | server_main.py:138 | a part path is the target path followed by a non-empty suffix |
| Downloader.PartPathIsNotPath | server_main.py:138 | no part path equals the target path |
| Downloader.WriteParts | server_main.py:77-98 | a chunk that produced data leaves its part file; only part files are added; every other file is untouched |
| Downloader.DownloadSingle | server_main.py:177-201 | succeeds iff the stream succeeded, and then the target holds the streamed bytes; no other file changes |
| Downloader.Parallel | server_main.py:100-175 | size 0 goes straight to the single stream; otherwise no part file survives; it succeeds iff every chunk is accepted, and then the target holds the part data merged in index order; a failed HEAD fails; files other than the target and its parts are untouched |
| Downloader.Download | server_main.py:203-209 | under either chunk rule: succeeds iff the parallel download succeeds or the single-stream retry does; after a parallel success on a non-zero size the target holds the chunk replies merged in index order; a size of 0 with a good stream holds the streamed bytes; after a retry the target holds the retried bytes; only the target and its part files change |
| Downloader.MergeOfSlices | server_main.py:157-163 | merging the exact slices of contiguous ranges in index order gives the content up to the last range's end |
| Downloader.ReassemblyRestoresContent | server_main.py:124-166 | against a server that honours ranges, with 1 <= n <= size, the download succeeds and the target equals the original content |
| Downloader.CorrectedSuccessIsExact | server_main.py:124-166 | with chunks accepted only as 206 partial replies, a successful download equals the content, whatever the server's range support and file size |
| Downloader.AsWrittenCorruptsShortFile | server_main.py:84-95 | as written, a file of 0 < size < n bytes from a server that honours ranges but ignores the invalid (0, -1) range, which section 3.1 of RFC 7233 permits, downloads "successfully" as n copies of itself |
| Downloader.AsWrittenFallsBackOn416 | server_main.py:84-95 | as written, a server that answers the invalid (0, -1) range with 416, as section 3.1 of RFC 7233 recommends, fails the parallel path, and the download is the retry stream's |
| Downloader.MergeLength | server_main.py:157-163 | merging n parts of length m gives n*m bytes |
| Downloader.IgnoredRangesCorruptDownload | server_main.py:84-95 | `download_file` as written, from a server that ignores the Range header, "succeeds" at any file size with 8 copies of the file |
| Downloader.CorrectedDownloadIsExact | server_main.py:203-209 | with the corrected chunk rule, against a server that serves or fails each request and a retry that is the file or a failure, a successful download holds exactly the file |
| Downloader.CorrectedFallsBackOnIgnoredRanges | server_main.py:203-209 | with the corrected chunk rule, a server that ignores the Range header sends the download to the retry stream, whose result stands |
| Downloader.CorrectionAgreesOnPartialReplies | server_main.py:84-95 | when no chunk reply is a full-body 200, the corrected and the as-written download agree |
| Tagging.NameInjective | server_main.py:466-473 | no two slots of a format share a tag key |
| Tagging.WriteFields | server_main.py:332-349 | the write succeeds iff every field is writable; a slot is written iff its field is truthy; each value is the field's text under the format's key and shape |
| Tagging.SniffMimeIsPngMagic | server_main.py:355-357 | the MIME type is image/png iff the data starts with 89 50 4E 47, else image/jpeg |
| Tagging.Writer | server_main.py:303-571 | a writer succeeds iff every field is writable |
| Tagging.TextFieldsWhenTruthy | server_main.py:332-349 | a text field appears iff it is truthy, with the format's value for its text |
| Tagging.OnlyTruthyKeys | server_main.py:332-365 | every written slot comes from a truthy field or from a cover, which only MP3 and MP4 put among the tags |
| Tagging.TitleOnly | server_main.py:332-349 | a title-only request yields exactly one title entry, and no picture outside FLAC |
| Tagging.YearIsStr | server_main.py:338-341 | a numeric year is stored as `str(year)`, which reads back as the year |
| Tagging.Mp3Cover | server_main.py:352-365 | MP3 gets an APIC frame iff there is cover data: UTF-8, type 3, description "Cover", MIME sniffed from the PNG magic |
| Tagging.FlacCover | server_main.py:404-413 | FLAC with a cover has exactly one picture, type 3, image/jpeg; without one the existing pictures stay |
| Tagging.Mp4Cover | server_main.py:489-492 | MP4 stores the cover under `covr` iff there is cover data |
| Tagging.NoPictureFormats | server_main.py:424-571 | OGG, WAV and AIFF never write a picture |
| Tagging.DispatchIgnoresCase | server_main.py:580 | two paths whose extensions agree after lower-casing are tagged alike |
| Tagging.SupportedExtensions | server_main.py:582-596 | exactly .mp3, .flac, .ogg, .oga, .m4a, .mp4, .wav and .aiff are supported |
| PyPath.ExtensionShape | server_main.py:580 | the extension `splitext` gives is empty or a dot followed by text with no dot and no separator, and it ends the path |
| PyPath.ExtensionOfSuffix | server_main.py:580 | a path ending in a character that is neither a dot nor a separator, followed by a dot and text with no dot and no separator, has exactly that suffix as its extension |
| PyPath.NameForPath | server_main.py:658 | the download name is the URL path's base name, or `audio.mp3` when that is empty; it is never empty and holds no separator |
| PyPath.PlainHttpDownloadName | server_main.py:657-658 | for a plain `http://host/path` URL the download name is the path's base name |
| PyPath.Netloc | server_main.py:659 | after a `//` prefix, the text splits into `//`, the network location and the rest the path is read from; the network location holds no `/`, `?` or `#`; without the prefix it is empty |
| PyPath.PlainHttpUrlParses | server_main.py:659 | a plain `http://host/path` URL is accepted by `urlparse` iff its host holds both square brackets or neither |
| PyPath.JoinedBasename | server_main.py:661-662 | a plain file name joined onto the service directory is the base name of the result |
| Server.TempIsNotProcessed | server_main.py:661-662 | the download path and the processed path always differ |
| Server.TagAndRegister | server_main.py:691-712 | after copying: on tagging success the id is registered to the processed copy, which holds the downloaded bytes and the new tags, and the download is gone; on failure neither file remains and the registry and the tags are unchanged; every other file keeps its bytes and every other path its tags |
| Server.Check | server_main.py:629-657 | 503 while shutting down; 200 for the pre-flight; 400 for an unparsable body, an empty object or a missing `url` or `title` key; 500 for a decoded value that is not an object and for a `url` that is not a string; the request proceeds iff it is a POST of a non-empty object with both keys and a string `url` |
| Server.Produce | server_main.py:655-720 | a URL that `urlparse` refuses answers 500 and changes nothing; it registers iff the URL parses, the download succeeds and leaves a non-empty file, and tagging succeeds; then the new id maps to the processed copy under the URL's download name, which is plain and non-empty, the copy holds the downloaded bytes and the new tags, the download is gone, and the download route serves the copy as `processed_` + the name; anything else answers 500 and leaves the registry and the tags alone; no file outside the download, its part files and the copy changes, and no other path's tags; the registry invariant is kept |
| Server.Store | server_main.py:667-720 | once the download returned: registers iff it succeeded with a non-empty file and tagging succeeded, with the copy holding the downloaded bytes; otherwise 500 with the registry and the tags unchanged; only the download and the copy change on disk |
| Server.RegisterKeepsConsistent | server_main.py:707-711 | registering a plain non-empty name at its own processed path keeps every entry pointing at its own processed copy |
| Server.RegisteredIsServed | server_main.py:727-744 | a registered id whose file is on disk is served as that file under `processed_` + its name |
| Server.ProcessMusic | server_main.py:626-725 | while shutting down it answers 503 and changes nothing; every refusal of the checks answers the checks' code and changes nothing, so a missing key gives 400 and a body that is not an object gives 500; a URL that `urlparse` refuses gives 500 and no change; only a registration changes the registry, by exactly the new id, and the download route then serves the copy as `processed_` + the name; no file outside this request's download, part files and copy changes, and no other path's tags; the registry invariant is kept |
| Server.DownloadEndpoint | server_main.py:727-744 | 503 while shutting down; for a registered id it sends the file iff the file is on disk, as `processed_` + its name, and otherwise answers 404; an unknown id answers 404 |
| Server.StatusEndpoint | server_main.py:765-770 | 503 iff shutting down, else 200 |
| Server.SweepPass | server_main.py:603-621 | nothing while shutting down; otherwise exactly the entries older than 300 seconds leave the registry and their files and tags are removed; the surviving entries are unchanged, and every path that is not a swept entry's keeps its bytes and tags |
| Server.ShuttingDownRefusesAll | server_main.py:629-630 | while shutting down, download and status answer 503 and the sweep changes nothing |
| Server.ShutdownIdempotent | server_main.py:750 | shutting down twice is shutting down once |
| Server.ShutdownThenRefuse | server_main.py:750 | after a shutdown, downloads and status answer 503 |
| Server.SweptIdIsGone | server_main.py:733-734 | after a sweep, a swept or never-issued id answers 404 |
| Server.BoundaryAgeSurvives | server_main.py:614 | an entry exactly 300 seconds old survives: the age test is strict |
| Server.SweepIdempotent | server_main.py:613-621 | sweeping twice at the same time removes nothing more |
| Server.SweepKeepsConsistent | server_main.py:613-621 | the sweep keeps every entry pointing at its own processed copy with a plain name |
| Server.ShutdownKeepsConsistent | server_main.py:750 | the shutdown keeps the registry invariant |
| PyText.IntRoundTrip | server_main.py:114 | `int(str(i)) == i` for every integer |
| PyText.ParseInt | app_gui.py:327 | `int()` of blank text fails, and `int()` refuses every text holding one of the ASCII separators FS, GS, RS, US, which `str.isspace` counts as whitespace but `int()` does not skip |
| PyText.SeparatorIsNotIntSpace | app_gui.py:323-327 | `int("\x1c5")` fails, while `int("\x1c5".strip())` is 5 |
| PyText.SplitJoin | app_gui.py:504 | splitting the dotted join of separator-free pieces gives the pieces back |
| Versions.SeparatorVersionIsFallback | app_gui.py:501-506 | the version "1.\x1c2" falls back to (0, 0, 0), because `int()` refuses its second piece |
| Versions.VersionTuple | app_gui.py:501-506 | the tuple has one component per dotted piece, each `int()` of its piece, when every piece parses, and is (0, 0, 0) otherwise |
| Versions.VersionTupleOf | app_gui.py:501-506 | a value that is not a string reads as a non-empty tuple |
| Versions.TupleLessAt | app_gui.py:513-516 | the tuple order is lexicographic: the first differing component decides, and a proper prefix is smaller |
| Versions.TupleLessIrreflexive | app_gui.py:513-516 | no tuple is smaller than itself |
| Versions.TupleLessTransitive | app_gui.py:513-516 | the tuple order is transitive |
| Versions.TupleLessAsymmetric | app_gui.py:513-516 | two tuples are never each smaller than the other |
| Versions.TupleLessTotal | app_gui.py:513-518 | any two tuples are equal or one is smaller |
| Versions.NotLessTransitive | app_gui.py:473 | "not greater" is transitive, so sorting by the key is well defined |
| Versions.CompareVersions | app_gui.py:508-521 | 1, 0 or -1 exactly as the first tuple is greater, equal or smaller |
| Versions.CompareReflexive | app_gui.py:508-521 | a version compares equal to itself |
| Versions.CompareAntisymmetric | app_gui.py:508-521 | swapping the arguments negates the result |
| Versions.RenderRoundTrip | app_gui.py:501-506 | reading a dotted rendering of natural numbers gives the numbers back |
| Versions.NumericNotTextual | app_gui.py:508-521 | "1.0.10" is newer than "1.0.9" |
| Versions.PrefixIsOlder | app_gui.py:508-521 | "1.0" is older than "1.0.0" |
| Versions.EmptyVersionIsFallback | app_gui.py:501-506 | the empty string reads as (0, 0, 0) |
| Versions.ZeroVersionIsFallback | app_gui.py:473 | the sort's default "0.0.0" reads as (0, 0, 0) |
| Versions.Insert | app_gui.py:473 | the insertion step adds exactly one element |
| Versions.InsertSorted | app_gui.py:473 | inserting into a sorted list keeps it sorted |
| Versions.InsertStable | app_gui.py:473 | inserting an element puts it after every element of its key and leaves every key's other elements in order |
| Versions.SortBy | app_gui.py:473 | the sort is a permutation whose keys never decrease, and it is stable: the elements of each key keep their input order |
| Versions.SortReleases | app_gui.py:473 | the releases are permuted into non-decreasing version order, and releases of equal version keep their input order |
| Versions.LatestKey | app_gui.py:475-480 | the latest release's version as compared is the version it was sorted by |
| Versions.Decide | app_gui.py:471-492 | no releases gives the "not found" outcome; an update shown is one of the releases |
| Versions.LastIsMaximal | app_gui.py:473-474 | after sorting, the last release is at least as new as every release |
| Versions.UpdateIffNewerRelease | app_gui.py:471-486 | the update dialog appears iff some release is newer than the current version |
| Versions.LatestIsLastOfNewest | app_gui.py:473-474 | of the releases sharing the newest version, the one taken as the latest is the one listed last |
| Versions.DecideAgreesWithCompare | app_gui.py:480 | for a string version the decision is `compare_versions(latest, current) > 0` |
| Settings.SaveSettings | app_gui.py:560-569 | the host is pinned; every other key keeps its value; a completed write leaves the settings in the file; a file that could not be opened is unchanged; a dump that raised after the open leaves a file that does not decode |
| Settings.LoadSettings | app_gui.py:534-558 | the host is pinned; a decoded object keeps its other keys and values; anything else gives the defaults (`MusicCache` under the home directory, host 127.0.0.1, port "5000", minimise-to-tray on); only an absent file is written, with the defaults, and left as the write left it |
| Settings.SaveThenLoad | app_gui.py:547-566 | loading a saved file gives back exactly the saved settings |
| Settings.LoadThenSave | app_gui.py:549-563 | saving what was loaded changes none of it |
| Settings.HostAlwaysPinned | app_gui.py:549 | a host written into the file by hand is never used |
| Settings.InterruptedSaveLosesSettings | app_gui.py:563-566 | a save whose dump fails after the file was opened loses the old file: the next load gives the defaults |
| Settings.UnopenedSaveKeepsFile | app_gui.py:563-569 | a save that could not open the file leaves the next load as it was |
| Settings.OnSave | app_gui.py:321-352 | the text is stripped with `str.strip()` and then given to `int()`; it is rejected iff that fails, or not in 1..65535; the dialog is accepted iff the port is valid and either unchanged or confirmed |
| Settings.NumeralPortAccepted | app_gui.py:323-352 | every port in 1..65535 is accepted as the current port with no prompt, and as a new port once confirmed |
| Settings.PortBounds | app_gui.py:328-330 | 0 and 65536 are out of range |
| Settings.NumericOriginalAlwaysPrompts | app_gui.py:336-350 | in `on_save` taken alone, a port stored as a JSON number never counts as unchanged, so saving needs confirmation |

## Left out

- Network I/O is not modelled. The HEAD, ranged and streamed requests, the session and its retry adapter, and the cover download are parameters: a reply per chunk, a stream outcome, cover bytes or none.
- The thread pools are not modelled. A failed chunk is taken to end the wait; the race in which a chunk still running writes its part file after the cleanup loop is not covered.
- The real file system and logging are not modelled. A copy failure, or any other exception inside `process_music`'s outer `try`, is not modelled beyond the 500 paths named in `Server.Check` and `Server.Produce`.
- A download that fails midway leaves its partial temporary file in place. The model keeps it too, following the code.
- The audio library's byte layouts are not modelled: ID3, Vorbis comments, FLAC blocks, MP4 atoms, and `save(v2_version=3)`. Whether it opens and saves a file is one boolean. `strip_existing_metadata` is taken to succeed, so the writers start from an empty container; its own failures are swallowed by the code.
- Tagging.Writer: a truthy text field that is not a string is treated as a writer failure. An example is a numeric title, which the audio library may coerce or reject.
- Tagging.YearText: a year that is an array or an object is treated the same way, as a writer failure.
- Tagging.Name: ID3 frames are keyed by frame ID. The library's hash keys such as `USLT::eng` are not modelled.
- PyPath.UrlParses: only the test for an unbalanced square bracket in the network location is modelled. The checks that some Python releases add are not: the validation of a bracketed IPv6 host, and the check of non-ASCII network locations under NFKC normalisation.
- Settings.NumericOriginalAlwaysPrompts: `set_settings` first passes the stored port to a Qt text field's `setText`. A number there most likely raises, so the dialog may never open. The Qt library is not part of this model, and the lemma is about `on_save` alone.
- Other platforms are not modelled. Elsewhere `ctypes.windll` is absent and `os.path` is `posixpath`, with `/` as the only separator.
- Timestamps are mathematical reals. Floating-point rounding of `time.time()` is ignored.
- JSON numbers are integers. Fractions are not modelled.
- PyText.ParseInt: `int()` on non-ASCII Unicode digits and non-ASCII whitespace is not modelled, nor is the limit of 4300 digits that CPython 3.11 and later put on `int()` and `str()`.
- PyText.IntRoundTrip: holds for every integer, while CPython 3.11 and later raise on numerals longer than 4300 digits; that limit is not modelled.
- PyPath.Basename: Windows drive and UNC prefixes are not modelled.
- Flask routing, CORS headers, `send_file`, the index route, the JSON bodies of the replies, and the `download_url` text are not modelled.
- The Qt user interface is not modelled: dialogs, tray and menus. The check for updates fetches and scrapes a web page; the model starts from the decoded list of releases. `build_final.py` is not part of this model.
- Settings.OnSave: after the user declines a change, the dialog shows the original port again. That display step is not modelled; the verdict `Declined` stands for it.

## Findings

| source | as written | input that shows it | evidently intended | confidence | as-written member | corrected member |
|---|---|---|---|---|---|---|
| server_main.py:84-95 | a chunk reply counts as good whenever `raise_for_status` passes, so a 200 full-body reply to a ranged GET is written as the part | a file of 0 < size < 8 bytes: the first seven ranges are (0, -1), a range whose last byte precedes its first (invalid by section 2.1 of RFC 7233), and a server that ignores such a range sends the whole file, which section 3.1 permits, so each of those parts, and the last, holds the whole file, and the result is 8 copies; a server that answers 416, as section 3.1 recommends, is unaffected | only a 206 partial reply counts, and anything else fails the parallel path and falls back to the single stream | not executed | Downloader.AsWrittenCorruptsShortFile | Downloader.CorrectedSuccessIsExact |
| server_main.py:84-95 | the same acceptance rule, seen from `download_file` | a file of any non-zero size from a server that does not support ranges: each of the 8 ranged GETs is answered 200 with the whole file, and the download "succeeds" with 8 copies | as above | not executed | Downloader.IgnoredRangesCorruptDownload | Downloader.CorrectedDownloadIsExact |

`Downloader.DownloadFile` is the code as written, and `Downloader.DownloadFileCorrected` applies the corrected rule. The service route `Server.Produce` models the service as it runs, so it uses `Downloader.DownloadFile`. None of its properties depends on which rule is used, except the bytes the copy holds, which it states as whatever the download left.
