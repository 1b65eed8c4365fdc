/** The Rust project adapter (src/implementations/rust.rs): the
    `package.version` entry of `Cargo.toml`. The TOML library is a
    parameter: `parseToml` stands for `toml::from_str` and `printToml` for
    `Value::to_string`. */
module RustAdapter {
  import opened Common
  import opened Utils

  const CARGO_TOML: string := "Cargo.toml"

  const MISSING_VERSION: string := "'Cargo.toml' is missing 'version' property."

  /** A TOML document as `toml::Value` holds it. */
  datatype Toml =
    | TString(s: string)
    | TInteger(i: int)
    | TFloat(text: string)
    | TBoolean(b: bool)
    | TDatetime(text: string)
    | TArray(items: seq<Toml>)
    | TTable(entries: map<string, Toml>)

  /** `Value::get` with a key: the entry of a table; nothing for any other value. */
  function Get(t: Toml, key: string): (r: Option<Toml>)
    ensures r.Some? <==> t.TTable? && key in t.entries
    ensures r.Some? ==> r.value == t.entries[key]
  {
    if t.TTable? && key in t.entries then Some(t.entries[key]) else None
  }

  /** `package` is a table that has a `version` entry, of whatever type. */
  predicate HasPackageVersion(t: Toml) {
    t.TTable? && "package" in t.entries
    && t.entries["package"].TTable? && "version" in t.entries["package"].entries
  }

  /** The chain of `get("package")`, `get("version")` and `as_str()`: the
      version is read only when it is a string. */
  function VersionOf(t: Toml): (r: Result<string>)
    ensures r.Ok? <==> HasPackageVersion(t) && t.entries["package"].entries["version"].TString?
    ensures r.Ok? ==> t.entries["package"].entries["version"] == TString(r.value)
    ensures r.Err? ==> r.error == Failure(MISSING_VERSION)
  {
    match Get(t, "package")
    case None => Err(Failure(MISSING_VERSION))
    case Some(package) =>
      match Get(package, "version")
      case None => Err(Failure(MISSING_VERSION))
      case Some(version) =>
        if version.TString? then Ok(version.s) else Err(Failure(MISSING_VERSION))
  }

  /** The `get_mut` chain and the assignment through it: `package.version`
      becomes the string `v`, whatever it held before, and the update needs
      only that the entry exists. Every other entry of the document and of
      `package` is kept, and reading the version back gives `v`. */
  function SetPackageVersion(t: Toml, v: string): (r: Result<Toml>)
    ensures r.Ok? <==> HasPackageVersion(t)
    ensures r.Err? ==> r.error == Failure(MISSING_VERSION)
    ensures r.Ok? ==> VersionOf(r.value) == Ok(v)
    ensures r.Ok? ==> (r.value.TTable? && r.value.entries.Keys == t.entries.Keys
      && (forall k :: k in t.entries && k != "package" ==> r.value.entries[k] == t.entries[k]))
    ensures r.Ok? ==> (r.value.entries["package"].TTable?
      && r.value.entries["package"].entries.Keys == t.entries["package"].entries.Keys
      && (forall k :: k in t.entries["package"].entries && k != "version" ==>
            r.value.entries["package"].entries[k] == t.entries["package"].entries[k]))
  {
    match Get(t, "package")
    case None => Err(Failure(MISSING_VERSION))
    case Some(package) =>
      if Get(package, "version").None? then Err(Failure(MISSING_VERSION))
      else
        var package' := TTable(package.entries["version" := TString(v)]);
        Ok(TTable(t.entries["package" := package']))
  }

  /** Reading and bumping disagree on a version that is not a string: the
      read fails while the bump overwrites it. */
  lemma BumpAcceptsWhatReadRejects(t: Toml, v: string)
    requires HasPackageVersion(t) && !t.entries["package"].entries["version"].TString?
    ensures VersionOf(t).Err? && SetPackageVersion(t, v).Ok?
  {
  }

  /** `get_current_version`: opens `Cargo.toml` read-only, parses it and
      reads `package.version`. */
  function GetCurrentVersion(fs: Fs, parseToml: string -> Option<Toml>): (r: Step<string>)
    ensures r.fs == fs
    ensures CARGO_TOML !in fs.files ==> r.result == Err(NotFound(CARGO_TOML)) && r.events == []
    ensures CARGO_TOML in fs.files ==> r.events == [Read(CARGO_TOML)]
    ensures CARGO_TOML in fs.files && parseToml(fs.files[CARGO_TOML]).None? ==>
      r.result == Err(ParseError(CARGO_TOML))
    ensures CARGO_TOML in fs.files && parseToml(fs.files[CARGO_TOML]).Some? ==>
      r.result == VersionOf(parseToml(fs.files[CARGO_TOML]).value)
    ensures FileEvents(r.events)
  {
    if CARGO_TOML !in fs.files then Step(Err(NotFound(CARGO_TOML)), fs, [])
    else
      match parseToml(fs.files[CARGO_TOML])
      case None => Step(Err(ParseError(CARGO_TOML)), fs, [Read(CARGO_TOML)])
      case Some(t) => Step(VersionOf(t), fs, [Read(CARGO_TOML)])
  }

  /** `bump_version`: parses `Cargo.toml`, sets `package.version` and
      writes the printed document back. */
  function BumpVersion(fs: Fs, parseToml: string -> Option<Toml>, printToml: Toml -> string, v: string): (r: Step<()>)
    ensures CARGO_TOML !in fs.files ==> r == Step(Err(NotFound(CARGO_TOML)), fs, [])
    ensures r.result.Ok? <==> (CARGO_TOML in fs.files
      && parseToml(fs.files[CARGO_TOML]).Some?
      && HasPackageVersion(parseToml(fs.files[CARGO_TOML]).value)
      && CARGO_TOML !in fs.failingWrites)
    ensures r.result.Ok? ==>
      r.fs.files == fs.files[CARGO_TOML := printToml(SetPackageVersion(parseToml(fs.files[CARGO_TOML]).value, v).value)]
      && r.events == [Read(CARGO_TOML), Write(CARGO_TOML)]
    ensures r.result.Err? ==> r.fs == fs && Write(CARGO_TOML) !in r.events
    ensures FileEvents(r.events)
  {
    if CARGO_TOML !in fs.files then Step(Err(NotFound(CARGO_TOML)), fs, [])
    else
      match parseToml(fs.files[CARGO_TOML])
      case None => Step(Err(ParseError(CARGO_TOML)), fs, [Read(CARGO_TOML)])
      case Some(t) =>
        match SetPackageVersion(t, v)
        case Err(e) => Step(Err(e), fs, [Read(CARGO_TOML)])
        case Ok(t') =>
          var write := FsWrite(fs, CARGO_TOML, printToml(t'));
          Step(write.result, write.fs, [Read(CARGO_TOML)] + write.events)
  }

  /** Round trip through the file: when the TOML library reads back what it
      printed, the version read after a successful bump is the new one. */
  lemma BumpThenRead(fs: Fs, parseToml: string -> Option<Toml>, printToml: Toml -> string, v: string)
    requires forall t :: parseToml(printToml(t)) == Some(t)
    requires BumpVersion(fs, parseToml, printToml, v).result.Ok?
    ensures GetCurrentVersion(BumpVersion(fs, parseToml, printToml, v).fs, parseToml).result == Ok(v)
  {
    var t := parseToml(fs.files[CARGO_TOML]).value;
    var t' := SetPackageVersion(t, v).value;
    assert parseToml(printToml(t')) == Some(t');
  }
}
