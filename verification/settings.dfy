/** The desktop application's settings: the port check of the settings
    dialog, and loading and saving the configuration file, which always
    pins the server to the loopback host. The file is a value of type
    `ConfigFile`; reading it, and how far writing it gets, are inputs. */
module Settings {
  import opened Common
  import opened PyText
  import opened PyPath

  /** The only host the server may bind to. */
  const Localhost: string := "127.0.0.1"

  const DefaultPort: string := "5000"

  const MaxPort: int := 65535

  /** The settings dictionary. */
  type Config = map<string, JsonValue>

  /** The configuration file on disk: absent, or present with contents
      that `json.load` either decodes or rejects (`None`). */
  datatype ConfigFile = Absent | Present(contents: Option<JsonDoc>)

  /** The settings used when there is no usable configuration file; `home`
      is the user's home directory. */
  function Defaults(home: string): (c: Config)
    ensures c.Keys == {"cache_dir", "host", "port", "minimize_to_tray"}
    ensures c["host"] == JStr(Localhost) && c["port"] == JStr(DefaultPort)
    ensures c["cache_dir"] == JStr(PathJoin(home, "MusicCache"))
    ensures c["minimize_to_tray"] == JBool(true)
  {
    map["cache_dir" := JStr(PathJoin(home, "MusicCache")),
        "host" := JStr(Localhost),
        "port" := JStr(DefaultPort),
        "minimize_to_tray" := JBool(true)]
  }

  /** Whether the host entry is the loopback host. */
  predicate Pinned(c: Config)
  {
    "host" in c && c["host"] == JStr(Localhost)
  }

  /** How far writing the file got: the settings were written; opening the
      file for writing raised, so it was not touched; or opening it
      truncated it and the dump then raised, leaving an empty file or a
      proper prefix of the JSON text, neither of which decodes. */
  datatype WriteOutcome = Written | NotOpened | Interrupted

  /** `save_settings`: the host entry is overwritten in memory, then the
      settings are written; a failed write is only logged. Returns the
      settings and the file afterwards. */
  function SaveSettings(c: Config, file: ConfigFile, write: WriteOutcome): (r: (Config, ConfigFile))
    ensures Pinned(r.0)
    ensures r.0.Keys == c.Keys + {"host"}
    ensures forall k :: k in c && k != "host" ==> r.0[k] == c[k]
    ensures write == Written ==> r.1 == Present(Some(JObject(r.0)))
    ensures write == NotOpened ==> r.1 == file
    ensures write == Interrupted ==> r.1 == Present(None)
  {
    var pinned := c["host" := JStr(Localhost)];
    (pinned,
     match write
     case Written => Present(Some(JObject(pinned)))
     case NotOpened => file
     case Interrupted => Present(None))
  }

  /** `load_settings`: a decoded object is taken as it is with its host
      entry overwritten; a file that does not decode, or decodes to
      something other than an object (the host assignment raises), gives
      the defaults; an absent file gives the defaults and they are saved.
      Returns the settings and the file afterwards. */
  function LoadSettings(file: ConfigFile, home: string, write: WriteOutcome): (r: (Config, ConfigFile))
    ensures Pinned(r.0)
    ensures (file.Present? && file.contents.Some? && file.contents.value.JObject?) ==>
              && r.0.Keys == file.contents.value.fields.Keys + {"host"}
              && (forall k :: k in file.contents.value.fields && k != "host" ==>
                    r.0[k] == file.contents.value.fields[k])
    ensures !(file.Present? && file.contents.Some? && file.contents.value.JObject?) ==> r.0 == Defaults(home)
    ensures file.Present? ==> r.1 == file
    ensures file.Absent? && write == Written ==> r.1 == Present(Some(JObject(Defaults(home))))
    ensures file.Absent? && write == NotOpened ==> r.1 == Absent
    ensures file.Absent? && write == Interrupted ==> r.1 == Present(None)
  {
    match file
    case Absent => SaveSettings(Defaults(home), file, write)
    case Present(None) => (Defaults(home), file)
    case Present(Some(JNotObject(_))) => (Defaults(home), file)
    case Present(Some(JObject(loaded))) => (loaded["host" := JStr(Localhost)], file)
  }

  /** Whatever the settings held, saving and loading the saved file gives
      the saved settings back. */
  lemma SaveThenLoad(c: Config, file: ConfigFile, home: string, write: WriteOutcome)
    ensures var saved := SaveSettings(c, file, Written);
            LoadSettings(saved.1, home, write) == saved
  {
    var saved := SaveSettings(c, file, Written);
    assert saved.0["host" := JStr(Localhost)] == saved.0;
  }

  /** Loading a file and saving what was loaded writes the same settings
      and changes none of them. */
  lemma LoadThenSave(file: ConfigFile, home: string, write: WriteOutcome)
    ensures var loaded := LoadSettings(file, home, write);
            SaveSettings(loaded.0, loaded.1, write).0 == loaded.0
  {
    var loaded := LoadSettings(file, home, write);
    assert loaded.0["host" := JStr(Localhost)] == loaded.0;
  }

  /** A host written into the file by hand is never used. */
  lemma HostAlwaysPinned(fields: map<string, JsonValue>, host: JsonValue, home: string, write: WriteOutcome)
    ensures LoadSettings(Present(Some(JObject(fields["host" := host]))), home, write).0["host"] == JStr(Localhost)
  {
  }

  /** The file is opened for writing before the settings are dumped, so a
      dump that fails loses the old file as well: the next start reads the
      defaults, whatever either the old file or the settings held. */
  lemma InterruptedSaveLosesSettings(c: Config, file: ConfigFile, home: string, write: WriteOutcome)
    ensures LoadSettings(SaveSettings(c, file, Interrupted).1, home, write).0 == Defaults(home)
  {
  }

  /** A save that could not open the file leaves what the next start reads
      as it was. */
  lemma UnopenedSaveKeepsFile(c: Config, file: ConfigFile, home: string, write: WriteOutcome)
    requires file.Present?
    ensures LoadSettings(SaveSettings(c, file, NotOpened).1, home, write) == LoadSettings(file, home, write)
  {
  }

  // ----- the settings dialog's port check ------------------------------------

  /** `settings.get("port", "5000")`, the port the dialog starts from. */
  function OriginalPort(c: Config): JsonValue
  {
    if "port" in c then c["port"] else JStr(DefaultPort)
  }

  /** What pressing "save" in the settings dialog does: a warning for a
      text that is not an integer, another for one outside 1..65535, the
      original port restored when the user declines a change, or the
      dialog accepted. */
  datatype Verdict = NotANumber | OutOfRange | Declined | Accepted(port: int)

  /** `on_save`: the text is stripped with `str.strip()`, and the result
      must parse with `int()` and lie in 1..65535; when it differs from the
      original port the user must confirm. The comparison is between the
      stripped text and the original value as loaded, so a port stored as a
      JSON number always counts as changed. */
  function OnSave(text: string, original: JsonValue, confirm: bool): (v: Verdict)
    ensures v == NotANumber <==> ParseInt(Strip(text)).None?
    ensures v == OutOfRange <==> ParseInt(Strip(text)).Some? && !(1 <= ParseInt(Strip(text)).value <= MaxPort)
    ensures v.Accepted? <==>
              && ParseInt(Strip(text)).Some? && 1 <= ParseInt(Strip(text)).value <= MaxPort
              && (JStr(Strip(text)) == original || confirm)
    ensures v.Accepted? ==> Some(v.port) == ParseInt(Strip(text))
  {
    var port := Strip(text);
    match ParseInt(port)
    case None => NotANumber
    case Some(n) =>
      if n < 1 || n > MaxPort then OutOfRange
      else if JStr(port) != original && !confirm then Declined
      else Accepted(n)
  }

  /** Every port in range, written as a plain numeral, is accepted without
      a prompt when it is the current port, and with one otherwise. */
  lemma NumeralPortAccepted(n: nat, original: JsonValue, confirm: bool)
    requires 1 <= n <= MaxPort
    ensures OnSave(NatToStr(n), JStr(NatToStr(n)), false) == Accepted(n)
    ensures OnSave(NatToStr(n), original, true) == Accepted(n)
  {
    IntRoundTrip(n);
    NumeralHasNoSpace(n);
  }

  /** 0 and 65536 are out of range. */
  lemma PortBounds(original: JsonValue, confirm: bool)
    ensures OnSave(NatToStr(0), original, confirm) == OutOfRange
    ensures OnSave(NatToStr(MaxPort + 1), original, confirm) == OutOfRange
  {
    IntRoundTrip(0);
    IntRoundTrip(MaxPort + 1);
    NumeralHasNoSpace(0);
    NumeralHasNoSpace(MaxPort + 1);
  }

  /** A port stored as a JSON number never matches the dialog's text, so
      saving asks for confirmation even when nothing was edited. This is
      `on_save` taken on its own: the dialog first puts the stored port into
      its text field, and a Qt text field given a number rather than a
      string most likely raises there, so the dialog may never open. */
  lemma NumericOriginalAlwaysPrompts(text: string, n: int)
    ensures !OnSave(text, JNum(n), false).Accepted?
  {
  }
}
