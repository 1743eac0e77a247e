/**
 * The greeter's configuration: the `Config` and `Session` records, their
 * defaults, where the configuration file is looked for, and how loading
 * combines that file with the remembered last user. The file system and the
 * JSON parsers are not modelled; what they answer is given as inputs.
 */
module Config {
  import opened Wrappers
  import Argv

  /** A session choice: the name shown and the command greetd starts. */
  datatype Session = Session(name: string, command: string)

  datatype Config = Config(
    sessions: seq<Session>,
    background: string,
    showClock: bool,
    title: string,
    keyboardLayout: Option<string>,
    lastUser: Option<string>)

  function DefaultBackground(): string { "#1a1b26" }

  function DefaultTrue(): bool { true }

  function DefaultTitle(): string { "Welcome" }

  /** `Config::default`. */
  function Default(): (c: Config)
    ensures |c.sessions| == 3 && c.lastUser == None && c.keyboardLayout == None
  {
    Config(
      [Session("Hyprland", "Hyprland"), Session("Sway", "sway"), Session("TTY", "/bin/bash")],
      DefaultBackground(), true, DefaultTitle(), None, None)
  }

  /** The default configuration, field by field. */
  lemma DefaultValues()
    ensures Default().sessions == [Session("Hyprland", "Hyprland"), Session("Sway", "sway"), Session("TTY", "/bin/bash")]
    ensures Default().background == "#1a1b26" && Default().title == "Welcome"
    ensures Default().showClock && Default().showClock == DefaultTrue()
    ensures Default().keyboardLayout == None && Default().lastUser == None
  {
  }

  /** Every default session command is a single word, so starting it sends exactly that command as the argument vector. */
  lemma DefaultSessionsLaunchable()
    ensures forall s :: s in Default().sessions ==> Argv.SplitWhitespace(s.command) == [s.command]
  {
    forall s | s in Default().sessions
      ensures Argv.SplitWhitespace(s.command) == [s.command]
    {
      var i :| 0 <= i < |Default().sessions| && Default().sessions[i] == s;
      DefaultCommandVisible(i);
      SingleWord(s.command);
    }
  }

  /** Each default session command is a non-empty run of visible ASCII characters. */
  lemma DefaultCommandVisible(i: nat)
    requires i < |Default().sessions|
    ensures Default().sessions[i].command != [] && VisibleAscii(Default().sessions[i].command)
  {
    DefaultValues();
    DefaultCommandsAscii();
  }

  /** A non-empty run of visible ASCII characters splits into itself alone. */
  lemma SingleWord(w: string)
    requires w != [] && VisibleAscii(w)
    ensures Argv.SplitWhitespace(w) == [w]
  {
    VisibleAsciiIsWord(w);
    Argv.SplitWord(w);
  }

  /** Every character is a visible ASCII character (no space, no control character). */
  predicate VisibleAscii(w: string)
  {
    w == [] || ('!' <= w[0] <= '~' && VisibleAscii(w[1..]))
  }

  lemma {:induction false} VisibleAsciiIsWord(w: string)
    requires w != [] && VisibleAscii(w)
    ensures Argv.IsWord(w)
  {
    if |w| > 1 {
      VisibleAsciiIsWord(w[1..]);
      assert forall i :: 1 <= i < |w| ==> w[i] == w[1..][i - 1];
    }
  }

  /** What reading an existing file gives. */
  datatype FileState = Unreadable(reason: string) | Readable(content: string)

  /**
   * The part of the file system the loader looks at: the existing paths with
   * what reading each gives, and the platform's configuration directory
   * (`dirs::config_dir`).
   */
  datatype FileSystem = FileSystem(files: map<string, FileState>, configDir: Option<string>)

  /** A JSON value, as far as the loader inspects one (`serde_json::Value`). */
  datatype Json = JString(text: string) | JObject(fields: map<string, Json>) | JOther

  const SystemConfigPath := "/etc/hypr-greeter/config.json"
  const LastUserPath := "/var/lib/greetd/last_user.json"

  predicate HasSuffix(s: string, suffix: string)
  {
    |suffix| <= |s| && s[|s| - |suffix|..] == suffix
  }

  /** `PathBuf::join` with a relative component: a `/` is inserted unless the base is empty or already ends in one. */
  function Join(base: string, component: string): (p: string)
    ensures HasSuffix(p, component)
  {
    if base == [] || base[|base| - 1] == '/' then base + component else base + "/" + component
  }

  /** `config_path`: the system-wide file when it exists, otherwise the file in the user's configuration directory. */
  function ConfigPath(fs: FileSystem): (path: string)
    ensures SystemConfigPath in fs.files ==> path == SystemConfigPath
  {
    if SystemConfigPath in fs.files then SystemConfigPath
    else Join(Join(ConfigDir(fs), "hypr-greeter"), "config.json")
  }

  /** `dirs::config_dir().unwrap_or_else(|| PathBuf::from("~/.config"))`. */
  function ConfigDir(fs: FileSystem): string
  {
    match fs.configDir
    case Some(d) => d
    case None => "~/.config"
  }

  /** Joining twice ends with both components, separated by a `/` when the first does not end in one. */
  lemma JoinTwice(base: string, dir: string, file: string)
    requires dir != [] && dir[|dir| - 1] != '/'
    ensures HasSuffix(Join(Join(base, dir), file), dir + "/" + file)
  {
    var inner := Join(base, dir);
    assert inner[|inner| - |dir|..] == dir;
    assert inner[|inner| - 1] == dir[|dir| - 1];
    var path := inner + "/" + file;
    assert Join(inner, file) == path;
    assert path[|path| - |dir + "/" + file|..] == inner[|inner| - |dir|..] + "/" + file;
  }

  /** A concatenation ends with its second part. */
  lemma ConcatSuffix(prefix: string, suffix: string)
    ensures HasSuffix(prefix + suffix, suffix)
  {
    var s := prefix + suffix;
    assert s[|s| - |suffix|..] == suffix;
  }

  /** Either way the path names `config.json` in a `hypr-greeter` directory. */
  lemma ConfigPathSuffix(fs: FileSystem)
    ensures HasSuffix(ConfigPath(fs), "hypr-greeter/config.json")
  {
    PathPieces();
    if SystemConfigPath !in fs.files {
      JoinTwice(ConfigDir(fs), "hypr-greeter", "config.json");
    } else {
      ConcatSuffix("/etc/", "hypr-greeter/config.json");
    }
  }

  /** Joining two components to a base that does not end in `/` puts a `/` before each. */
  lemma JoinTwiceExact(base: string, dir: string, file: string)
    requires base != [] && base[|base| - 1] != '/'
    requires dir != [] && dir[|dir| - 1] != '/'
    ensures Join(Join(base, dir), file) == base + ("/" + dir + "/" + file)
  {
    var inner := base + "/" + dir;
    assert inner[|inner| - 1] == dir[|dir| - 1];
    assert inner + "/" + file == base + ("/" + dir + "/" + file);
  }

  /** The user configuration file under a directory that does not end in `/`. */
  lemma UserConfigFile(dir: string)
    requires dir != [] && dir[|dir| - 1] != '/'
    ensures Join(Join(dir, "hypr-greeter"), "config.json") == dir + "/hypr-greeter/config.json"
  {
    PathPieces();
    JoinTwiceExact(dir, "hypr-greeter", "config.json");
  }

  /** The user configuration file under a directory that is empty or ends in `/`: no separator is added before it. */
  lemma UserConfigFileAfterSlash(dir: string)
    requires dir == [] || dir[|dir| - 1] == '/'
    ensures Join(Join(dir, "hypr-greeter"), "config.json") == dir + "hypr-greeter/config.json"
  {
    PathPieces();
    var inner := dir + "hypr-greeter";
    assert inner[|inner| - 1] == "hypr-greeter"[|"hypr-greeter"| - 1];
    assert Join(inner, "config.json") == inner + "/" + "config.json";
    assert inner + "/" + "config.json" == dir + ("hypr-greeter" + "/" + "config.json");
  }

  /**
   * Without the system-wide file, the path is the configuration directory
   * followed by `hypr-greeter/config.json`, with a `/` between them unless
   * the directory is empty or already ends in one.
   */
  lemma UserConfigPath(fs: FileSystem)
    requires SystemConfigPath !in fs.files && fs.configDir.Some?
    ensures var d := fs.configDir.value;
      ConfigPath(fs) == d + (if d == [] || d[|d| - 1] == '/' then "" else "/") + "hypr-greeter/config.json"
  {
    var d := fs.configDir.value;
    if d == [] || d[|d| - 1] == '/' {
      UserConfigFileAfterSlash(d);
      assert d + "" == d;
    } else {
      UserConfigFile(d);
    }
  }

  /** Without the system-wide file and without a configuration directory, the path is `~/.config/hypr-greeter/config.json`. */
  lemma FallbackConfigPath(fs: FileSystem)
    requires SystemConfigPath !in fs.files && fs.configDir == None
    ensures ConfigPath(fs) == "~/.config/hypr-greeter/config.json"
  {
    assert ConfigPath(fs) == Join(Join("~/.config", "hypr-greeter"), "config.json");
    FallbackPieces();
    UserConfigFile("~/.config");
  }

  /** `json.get("last_user").and_then(|v| v.as_str())`. */
  function LastUserField(json: Json): Option<string>
  {
    if json.JObject? && "last_user" in json.fields && json.fields["last_user"].JString?
    then Some(json.fields["last_user"].text) else None
  }

  /** The user named by the last-user file, if that file exists, reads, parses and has a string `last_user` field. */
  function RememberedUser(fs: FileSystem, parseJson: string -> Option<Json>): Option<string>
  {
    if LastUserPath in fs.files && fs.files[LastUserPath].Readable? then
      var json := parseJson(fs.files[LastUserPath].content);
      if json.Some? then LastUserField(json.value) else None
    else None
  }

  /**
   * `load_config`. `parseConfig` stands for `serde_json::from_str::<Config>`
   * and `parseJson` for `serde_json::from_str::<Value>`; a parsed `Config`
   * has no `last_user`, since that field is skipped by serialisation.
   */
  function LoadConfig(fs: FileSystem, parseConfig: string -> Result<Config>, parseJson: string -> Option<Json>)
    : (r: Result<Config>)
  {
    var path := ConfigPath(fs);
    var loaded: Result<Config> :=
      if path !in fs.files then Ok(Default())
      else match fs.files[path]
        case Unreadable(reason) => Err(Failure(reason))
        case Readable(content) =>
          match parseConfig(content)
          case Ok(c) => Ok(c.(lastUser := None))
          case Err(e) => Err(e);
    if loaded.Err? then loaded
    else match RememberedUser(fs, parseJson)
      case Some(user) => Ok(loaded.value.(lastUser := Some(user)))
      case None => loaded
  }

  /** With no configuration file, loading gives the defaults, apart from the remembered user. */
  lemma LoadWithoutFile(fs: FileSystem, parseConfig: string -> Result<Config>, parseJson: string -> Option<Json>)
    requires ConfigPath(fs) !in fs.files
    ensures var r := LoadConfig(fs, parseConfig, parseJson);
      r.Ok? && r.value.(lastUser := None) == Default()
  {
  }

  /** Loading fails exactly when the configuration file exists but cannot be read or parsed; the last-user file never makes it fail. */
  lemma LoadFailures(fs: FileSystem, parseConfig: string -> Result<Config>, parseJson: string -> Option<Json>)
    ensures var r := LoadConfig(fs, parseConfig, parseJson); var path := ConfigPath(fs);
      && (r.Err? <==>
            path in fs.files
            && (fs.files[path].Unreadable? || parseConfig(fs.files[path].content).Err?))
      && (r.Err? && fs.files[path].Unreadable? ==> r.error.message == fs.files[path].reason)
      && (r.Err? && fs.files[path].Readable? ==> r == parseConfig(fs.files[path].content))
  {
  }

  /** A configuration file that parses keeps all its fields; only `last_user` is decided by the last-user file. */
  lemma LoadParsedFile(fs: FileSystem, parseConfig: string -> Result<Config>, parseJson: string -> Option<Json>)
    requires ConfigPath(fs) in fs.files && fs.files[ConfigPath(fs)].Readable?
    requires parseConfig(fs.files[ConfigPath(fs)].content).Ok?
    ensures var r := LoadConfig(fs, parseConfig, parseJson);
      r.Ok? && r.value.(lastUser := None) == parseConfig(fs.files[ConfigPath(fs)].content).value.(lastUser := None)
  {
  }

  /**
   * `last_user` is set only when the last-user file exists, reads, parses and
   * has a string `last_user` field, and then to that string; otherwise it
   * keeps the value before that step, which is always `None`.
   */
  lemma LoadLastUser(fs: FileSystem, parseConfig: string -> Result<Config>, parseJson: string -> Option<Json>)
    ensures var r := LoadConfig(fs, parseConfig, parseJson);
      r.Ok? ==>
        && (r.value.lastUser.Some? <==>
              LastUserPath in fs.files && fs.files[LastUserPath].Readable?
              && parseJson(fs.files[LastUserPath].content).Some?
              && LastUserField(parseJson(fs.files[LastUserPath].content).value).Some?)
        && (r.value.lastUser.Some? ==>
              var json := parseJson(fs.files[LastUserPath].content).value;
              json.JObject? && "last_user" in json.fields && json.fields["last_user"] == JString(r.value.lastUser.value))
  {
  }

  // ---------------------------------------------------------------------------
  // Facts about the literal strings above. Each is split off into a lemma of
  // its own because the verifier settles one literal quickly on its own but
  // slowly amid the other facts of the lemma that uses it.

  /** The default session commands are visible ASCII. */
  lemma DefaultCommandsAscii()
    ensures VisibleAscii("Hyprland") && VisibleAscii("sway") && VisibleAscii("/bin/bash")
  {
    HyprlandAscii();
    SwayAscii();
    BashAscii();
  }

  lemma HyprlandAscii() ensures VisibleAscii("Hyprland") {}

  lemma SwayAscii() ensures VisibleAscii("sway") {}

  lemma BashAscii() ensures VisibleAscii("/bin/bash") {}

  /** The path pieces: the directory name does not end in `/`, and the system path ends in the user-relative one. */
  lemma PathPieces()
    ensures "hypr-greeter" != [] && "hypr-greeter"[|"hypr-greeter"| - 1] != '/'
    ensures "hypr-greeter" + "/" + "config.json" == "hypr-greeter/config.json"
    ensures "/" + "hypr-greeter" + "/" + "config.json" == "/hypr-greeter/config.json"
    ensures SystemConfigPath == "/etc/" + "hypr-greeter/config.json"
  {
    RelativePiece();
    AbsolutePiece();
    SystemPiece();
  }

  lemma RelativePiece()
    ensures "hypr-greeter" + "/" + "config.json" == "hypr-greeter/config.json"
  {
  }

  lemma AbsolutePiece()
    ensures "/" + "hypr-greeter" + "/" + "config.json" == "/hypr-greeter/config.json"
  {
  }

  lemma SystemPiece()
    ensures SystemConfigPath == "/etc/" + "hypr-greeter/config.json"
  {
  }

  /** The fallback directory does not end in `/`, and the fallback path is that directory followed by the file. */
  lemma FallbackPieces()
    ensures "~/.config" != [] && "~/.config"[|"~/.config"| - 1] != '/'
    ensures "~/.config" + "/hypr-greeter/config.json" == "~/.config/hypr-greeter/config.json"
  {
  }
}
