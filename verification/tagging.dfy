/** The metadata writer: the file's lower-cased extension picks one of six
    writers, and each writer fills an emptied tag container with the
    request's fields, writing a field only when its value is truthy.

    MP3, WAV and AIFF carry ID3v2 frames (sections 4.2, 4.8, 4.10 and 4.14
    of the ID3v2.4.0 frames document), FLAC and OGG carry Vorbis comments,
    MP4 carries iTunes atoms. The container is an abstract map from tag key
    to value; the audio library's byte layouts are not modelled, and
    `libraryOk` stands for whether the library could open and save the
    file. */
module Tagging {
  import opened Common
  import opened PyText
  import opened PyPath

  /** The text encoding byte of every ID3 frame written: UTF-8. */
  const Utf8: int := 3

  /** The picture type "Cover (front)". */
  const FrontCover: int := 3

  /** The four bytes `\x89PNG` a PNG file starts with. */
  const PngMagic: Bytes := [0x89, 0x50, 0x4E, 0x47]

  /** A value in the tag container. */
  datatype TagValue =
    | Id3Text(encoding: int, text: string)
    | Id3Described(encoding: int, lang: string, desc: string, text: string)
    | Id3Picture(encoding: int, mime: string, picType: int, desc: string, data: Bytes)
    | TextList(texts: seq<string>)
    | CoverList(covers: seq<Bytes>)

  /** A key of the tag container: a text field's, or the cover's. `Name`
      gives the key the audio library uses. */
  datatype Slot = FieldSlot(field: Field) | CoverSlot

  /** A FLAC picture block. */
  datatype Picture = Picture(picType: int, mime: string, desc: string, data: Bytes)

  /** A file's tags: the key/value container, and the picture blocks FLAC
      keeps apart from its Vorbis comments. */
  datatype Container = Container(tags: map<Slot, TagValue>, pictures: seq<Picture>)

  /** The metadata `process_music` hands over: the text fields as the JSON
      request carried them, and the cover bytes if the cover was fetched. */
  datatype Metadata = Metadata(
    title: JsonValue, artist: JsonValue, album: JsonValue, year: JsonValue,
    lyrics: JsonValue, tips: JsonValue, cover: Option<Bytes>)

  datatype Field = Title | Artist | Album | Year | Lyrics | Tips

  /** The fields in the order the writers handle them. */
  const AllFields: seq<Field> := [Title, Artist, Album, Year, Lyrics, Tips]

  lemma AllFieldsComplete(f: Field)
    ensures f in AllFields
  {
  }

  datatype Format = Mp3 | Flac | Ogg | Mp4 | Wav | Aiff

  /** How a format names and shapes its text fields. */
  datatype Scheme = Id3Frames | VorbisComments | Mp4Atoms

  function SchemeOf(fmt: Format): Scheme
  {
    match fmt
    case Mp3 => Id3Frames
    case Wav => Id3Frames
    case Aiff => Id3Frames
    case Flac => VorbisComments
    case Ogg => VorbisComments
    case Mp4 => Mp4Atoms
  }

  /** The writer `add_metadata_to_file` picks for a lower-cased extension. */
  function FormatOf(ext: string): Option<Format>
  {
    if ext == ".mp3" then Some(Mp3)
    else if ext == ".flac" then Some(Flac)
    else if ext == ".ogg" || ext == ".oga" then Some(Ogg)
    else if ext == ".m4a" || ext == ".mp4" then Some(Mp4)
    else if ext == ".wav" then Some(Wav)
    else if ext == ".aiff" then Some(Aiff)
    else None
  }

  function FieldValue(md: Metadata, f: Field): JsonValue
  {
    match f
    case Title => md.title
    case Artist => md.artist
    case Album => md.album
    case Year => md.year
    case Lyrics => md.lyrics
    case Tips => md.tips
  }

  /** `str(year)` for the JSON values it is defined on here; a nested array
      or object is not rendered. */
  function YearText(v: JsonValue): Option<string>
  {
    match v
    case JStr(s) => Some(s)
    case JNum(n) => Some(IntToStr(n))
    case JBool(b) => Some(if b then "True" else "False")
    case JNull => Some("None")
    case JCompound(_) => None
  }

  /** The text a field is written with: the year through `str`, every other
      field as the string it is. A non-string in a text field makes the
      writer fail. */
  function FieldText(md: Metadata, f: Field): Option<string>
  {
    if f == Year then YearText(md.year)
    else match FieldValue(md, f) case JStr(s) => Some(s) case _ => None
  }

  function Key(scheme: Scheme, f: Field): string
  {
    match scheme
    case Id3Frames =>
      (match f
       case Title => "TIT2" case Artist => "TPE1" case Album => "TALB"
       case Year => "TDRC" case Lyrics => "USLT" case Tips => "COMM")
    case VorbisComments =>
      (match f
       case Title => "title" case Artist => "artist" case Album => "album"
       case Year => "date" case Lyrics => "lyrics" case Tips => "comment")
    case Mp4Atoms =>
      (match f
       case Title => "\U{A9}nam" case Artist => "\U{A9}ART" case Album => "\U{A9}alb"
       case Year => "\U{A9}day" case Lyrics => "\U{A9}lyr" case Tips => "\U{A9}cmt")
  }


  /** The library key of a slot in a given format; the cover slot is
      `APIC` in ID3 and `covr` in MP4. */
  function Name(fmt: Format, s: Slot): string
  {
    match s
    case FieldSlot(f) => Key(SchemeOf(fmt), f)
    case CoverSlot => if fmt == Mp4 then "covr" else "APIC"
  }

  /** Different slots never share a library key, so the slot-keyed
      container is the library's string-keyed one. */
  lemma NameInjective(fmt: Format, s: Slot, t: Slot)
    ensures Name(fmt, s) == Name(fmt, t) ==> s == t
  {
  }

  function Value(scheme: Scheme, f: Field, text: string): TagValue
  {
    match scheme
    case Id3Frames =>
      if f == Lyrics then Id3Described(Utf8, "eng", "Lyrics", text)
      else if f == Tips then Id3Described(Utf8, "eng", "Comment", text)
      else Id3Text(Utf8, text)
    case _ => TextList([text])
  }

  /** A truthy field is written only if it has a text. */
  predicate Writable(md: Metadata, f: Field)
  {
    Truthy(FieldValue(md, f)) ==> FieldText(md, f).Some?
  }

  /** The `if metadata.get(field): tags[key] = value` sequence over `fs`,
      starting from an emptied container. */
  function WriteFields(scheme: Scheme, md: Metadata, fs: seq<Field>): (r: Option<map<Slot, TagValue>>)
    ensures r.Some? <==> forall i :: 0 <= i < |fs| ==> Writable(md, fs[i])
    ensures r.Some? ==> forall s :: s in r.value <==> s.FieldSlot? && s.field in fs && Truthy(FieldValue(md, s.field))
    ensures r.Some? ==> forall s :: s in r.value ==> r.value[s] == Value(scheme, s.field, FieldText(md, s.field).value)
  {
    if |fs| == 0 then Some(map[])
    else
      var front := fs[..|fs| - 1];
      var f := fs[|fs| - 1];
      assert fs == front + [f];
      match WriteFields(scheme, md, front)
      case None => None
      case Some(t) =>
        if !Truthy(FieldValue(md, f)) then Some(t)
        else match FieldText(md, f)
          case None => None
          case Some(x) => Some(t[FieldSlot(f) := Value(scheme, f, x)])
  }

  /** `cover_data.startswith(b'\x89PNG')` decides PNG, anything else is
      labelled JPEG. */
  function SniffMime(data: Bytes): string
  {
    if |data| >= 4 && data[..4] == PngMagic then "image/png" else "image/jpeg"
  }

  lemma SniffMimeIsPngMagic(data: Bytes)
    ensures SniffMime(data) == "image/png" <==>
              |data| >= 4 && data[0] == 0x89 && data[1] == 0x50 && data[2] == 0x4E && data[3] == 0x47
    ensures SniffMime(data) != "image/png" ==> SniffMime(data) == "image/jpeg"
  {
    if |data| >= 4 && data[0] == 0x89 && data[1] == 0x50 && data[2] == 0x4E && data[3] == 0x47 {
      assert data[..4] == PngMagic;
    }
  }

  /** The cover bytes, when they are truthy (present and non-empty). */
  predicate HasCover(md: Metadata)
  {
    md.cover.Some? && |md.cover.value| > 0
  }

  /** The cover step of each writer, after the text fields. `existing` is
      the picture list the FLAC file already held: `clear()` leaves it, and
      only a new cover replaces it. */
  function AddCover(fmt: Format, tags: map<Slot, TagValue>, md: Metadata, existing: seq<Picture>): Container
  {
    match fmt
    case Mp3 =>
      if HasCover(md) then
        var d := md.cover.value;
        Container(tags[CoverSlot := Id3Picture(Utf8, SniffMime(d), FrontCover, "Cover", d)], [])
      else Container(tags, [])
    case Flac =>
      if HasCover(md) then Container(tags, [Picture(FrontCover, "image/jpeg", "Cover", md.cover.value)])
      else Container(tags, existing)
    case Mp4 =>
      if HasCover(md) then Container(tags[CoverSlot := CoverList([md.cover.value])], [])
      else Container(tags, [])
    case _ => Container(tags, [])
  }

  /** The writer a path goes to. */
  function FormatFor(path: string): Option<Format>
  {
    FormatOf(Lower(Extension(path)))
  }

  /** The writer for one format (`add_metadata_to_mp3` and its five
      siblings) once the library has opened the file: the text fields into
      an emptied container, then the cover. `None` is the `False` they
      return when a field cannot be written. */
  function Writer(fmt: Format, md: Metadata, existing: seq<Picture>): (r: Option<Container>)
    ensures r.Some? <==> forall f :: Writable(md, f)
  {
    var written := WriteFields(SchemeOf(fmt), md, AllFields);
    if written.None? then
      assert exists i :: 0 <= i < |AllFields| && !Writable(md, AllFields[i]);
      None
    else
      assert forall f :: Writable(md, f) by {
        forall f ensures Writable(md, f) { AllFieldsComplete(f); }
      }
      Some(AddCover(fmt, written.value, md, existing))
  }

  /** `add_metadata_to_file(path, metadata)`: the lower-cased extension
      picks the writer; an unsupported extension or a library failure is
      the `False` it returns, before anything is written. */
  function AddMetadata(path: string, md: Metadata, existing: Container, libraryOk: bool): (r: Option<Container>)
    ensures FormatFor(path).None? || !libraryOk ==> r.None?
    ensures FormatFor(path).Some? && libraryOk ==> r == Writer(FormatFor(path).value, md, existing.pictures)
  {
    match FormatFor(path)
    case None => None
    case Some(fmt) => if libraryOk then Writer(fmt, md, existing.pictures) else None
  }

  // ----- properties of the writers -------------------------------------------

  /** Text fields, in every format: a field's key is present exactly when
      the field is truthy, and holds the field's text in the format's frame
      shape. */
  lemma TextFieldsWhenTruthy(fmt: Format, md: Metadata, existing: seq<Picture>, f: Field)
    requires Writer(fmt, md, existing).Some?
    ensures var tags := Writer(fmt, md, existing).value.tags;
            && (FieldSlot(f) in tags <==> Truthy(FieldValue(md, f)))
            && (Truthy(FieldValue(md, f)) ==> tags[FieldSlot(f)] == Value(SchemeOf(fmt), f, FieldText(md, f).value))
  {
    AllFieldsComplete(f);
  }

  /** Nothing but the truthy fields and a truthy cover is ever written. */
  lemma OnlyTruthyKeys(fmt: Format, md: Metadata, existing: seq<Picture>, s: Slot)
    requires Writer(fmt, md, existing).Some?
    requires s in Writer(fmt, md, existing).value.tags
    ensures s.FieldSlot? ==> Truthy(FieldValue(md, s.field))
    ensures s.CoverSlot? ==> HasCover(md) && (fmt == Mp3 || fmt == Mp4)
  {
  }

  /** A request carrying only a title yields a container with exactly one
      entry, the title, and no picture block unless FLAC already had one. */
  lemma TitleOnly(fmt: Format, title: string, existing: seq<Picture>)
    requires |title| > 0
    ensures var md := Metadata(JStr(title), JStr(""), JStr(""), JStr(""), JStr(""), JStr(""), None);
            && Writer(fmt, md, existing).Some?
            && Writer(fmt, md, existing).value.tags == map[FieldSlot(Title) := Value(SchemeOf(fmt), Title, title)]
            && (fmt != Flac ==> Writer(fmt, md, existing).value.pictures == [])
  {
    var md := Metadata(JStr(title), JStr(""), JStr(""), JStr(""), JStr(""), JStr(""), None);
    assert forall f :: Writable(md, f);
    var c := Writer(fmt, md, existing).value;
    forall s | s in c.tags ensures s == FieldSlot(Title) {
      OnlyTruthyKeys(fmt, md, existing, s);
    }
    TextFieldsWhenTruthy(fmt, md, existing, Title);
    SingleKeyMap(c.tags, FieldSlot(Title), Value(SchemeOf(fmt), Title, title));
  }

  /** A map with one key is the one-entry map. */
  lemma SingleKeyMap(m: map<Slot, TagValue>, k: Slot, v: TagValue)
    requires k in m && m[k] == v
    requires forall s :: s in m ==> s == k
    ensures m == map[k := v]
  {
  }

  /** A numeric year is stored as `str(year)`, which reads back as the same
      number. */
  lemma YearIsStr(fmt: Format, md: Metadata, existing: seq<Picture>, n: int)
    requires md.year == JNum(n) && n != 0
    requires Writer(fmt, md, existing).Some?
    ensures var tags := Writer(fmt, md, existing).value.tags;
            && FieldSlot(Year) in tags
            && tags[FieldSlot(Year)] == Value(SchemeOf(fmt), Year, IntToStr(n))
            && ParseInt(IntToStr(n)) == Some(n)
  {
    assert Truthy(FieldValue(md, Year));
    assert FieldText(md, Year) == Some(IntToStr(n));
    TextFieldsWhenTruthy(fmt, md, existing, Year);
    IntRoundTrip(n);
  }

  /** MP3 covers: an APIC "Cover" of type 3 in UTF-8, labelled `image/png`
      exactly when the data starts with the PNG magic, `image/jpeg`
      otherwise. */
  lemma Mp3Cover(md: Metadata, existing: seq<Picture>)
    requires Writer(Mp3, md, existing).Some?
    ensures var tags := Writer(Mp3, md, existing).value.tags;
            && (CoverSlot in tags <==> HasCover(md))
            && (HasCover(md) ==>
                  var d := md.cover.value;
                  && tags[CoverSlot].Id3Picture?
                  && tags[CoverSlot] == Id3Picture(Utf8, tags[CoverSlot].mime, FrontCover, "Cover", d)
                  && (tags[CoverSlot].mime == "image/png" <==>
                        |d| >= 4 && d[0] == 0x89 && d[1] == 0x50 && d[2] == 0x4E && d[3] == 0x47)
                  && (tags[CoverSlot].mime != "image/png" ==> tags[CoverSlot].mime == "image/jpeg"))
  {
    if HasCover(md) {
      SniffMimeIsPngMagic(md.cover.value);
    }
  }

  /** FLAC covers: one picture block, type 3, always labelled JPEG; without
      a cover the file's existing picture blocks are left as they were. */
  lemma FlacCover(md: Metadata, existing: seq<Picture>)
    requires Writer(Flac, md, existing).Some?
    ensures var c := Writer(Flac, md, existing).value;
            && (HasCover(md) ==> c.pictures == [Picture(FrontCover, "image/jpeg", "Cover", md.cover.value)])
            && (!HasCover(md) ==> c.pictures == existing)
            && CoverSlot !in c.tags
  {
  }

  /** MP4 covers are stored under `covr`. */
  lemma Mp4Cover(md: Metadata, existing: seq<Picture>)
    requires Writer(Mp4, md, existing).Some?
    ensures var c := Writer(Mp4, md, existing).value;
            && (CoverSlot in c.tags <==> HasCover(md))
            && (HasCover(md) ==> c.tags[CoverSlot] == CoverList([md.cover.value]))
            && Name(Mp4, CoverSlot) == "covr"
            && c.pictures == []
  {
  }

  /** OGG, WAV and AIFF never receive a picture, whatever the request. */
  lemma NoPictureFormats(fmt: Format, md: Metadata, existing: seq<Picture>)
    requires fmt == Ogg || fmt == Wav || fmt == Aiff
    requires Writer(fmt, md, existing).Some?
    ensures var c := Writer(fmt, md, existing).value;
            && c.pictures == []
            && CoverSlot !in c.tags
            && forall s :: s in c.tags ==> !c.tags[s].Id3Picture? && !c.tags[s].CoverList?
  {
    var c := Writer(fmt, md, existing).value;
    forall s | s in c.tags ensures !c.tags[s].Id3Picture? && !c.tags[s].CoverList? {
      OnlyTruthyKeys(fmt, md, existing, s);
    }
  }

  /** Dispatch only looks at the extension after lower-casing it: two paths
      whose extensions agree up to ASCII case are tagged alike. */
  lemma DispatchIgnoresCase(p: string, q: string, md: Metadata, existing: Container, libraryOk: bool)
    requires Lower(Extension(p)) == Lower(Extension(q))
    ensures AddMetadata(p, md, existing, libraryOk) == AddMetadata(q, md, existing, libraryOk)
  {
  }

  /** The supported extensions are exactly the eight the dispatcher names;
      any other extension is refused before anything is written. */
  lemma SupportedExtensions(ext: string)
    ensures FormatOf(ext).Some? <==> ext in {".mp3", ".flac", ".ogg", ".oga", ".m4a", ".mp4", ".wav", ".aiff"}
  {
  }
}
