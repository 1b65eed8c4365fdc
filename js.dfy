/** The JavaScript/TypeScript project adapter (src/implementations/js.rs):
    the toolchain checks run through `bun`, and the `version` property of
    `package.json`. The JSON library is a parameter: `parseJson` stands for
    `serde_json::from_reader`. */
module JsAdapter {
  import opened Common
  import opened Text
  import opened Utils

  const PACKAGE_JSON: string := "package.json"

  const ESLINT_ARGS: seq<string> := ["eslint"]
  const TSC_ARGS: seq<string> := ["tsc", "--noEmit"]
  const TEST_ARGS: seq<string> := ["test"]

  const MISSING_VERSION: string := "'package.json' is missing 'version' property."
  const VERSION_NOT_STRING: string := "'version' should be a string."

  /** A JSON document as `serde_json::Value` holds it. */
  datatype Json =
    | JNull
    | JBool(b: bool)
    | JNumber(text: string)
    | JString(s: string)
    | JArray(items: seq<Json>)
    | JObject(fields: map<string, Json>)

  /** `Value::get` with a key: the field of an object; nothing for any other value. */
  function Get(json: Json, key: string): (r: Option<Json>)
    ensures r.Some? <==> json.JObject? && key in json.fields
    ensures r.Some? ==> r.value == json.fields[key]
  {
    if json.JObject? && key in json.fields then Some(json.fields[key]) else None
  }

  /** The `version` property of a parsed `package.json`: absent and
      non-string values are two distinct errors. */
  function VersionOf(json: Json): (r: Result<string>)
    ensures Get(json, "version").None? ==> r == Err(Failure(MISSING_VERSION))
    ensures Get(json, "version").Some? && !Get(json, "version").value.JString? ==>
      r == Err(Failure(VERSION_NOT_STRING))
    ensures r.Ok? <==> Get(json, "version").Some? && Get(json, "version").value.JString?
    ensures r.Ok? ==> Get(json, "version") == Some(JString(r.value))
  {
    match Get(json, "version")
    case None => Err(Failure(MISSING_VERSION))
    case Some(v) =>
      if v.JString? then Ok(v.s) else Err(Failure(VERSION_NOT_STRING))
  }

  /** `get_current_version`: opens `package.json` read-only, parses it and
      reads its `version`. */
  function GetCurrentVersion(fs: Fs, parseJson: string -> Option<Json>): (r: Step<string>)
    ensures r.fs == fs
    ensures PACKAGE_JSON !in fs.files ==> r.result == Err(NotFound(PACKAGE_JSON)) && r.events == []
    ensures PACKAGE_JSON in fs.files ==> r.events == [Read(PACKAGE_JSON)]
    ensures r.result.Ok? <==> (PACKAGE_JSON in fs.files
      && parseJson(fs.files[PACKAGE_JSON]).Some?
      && VersionOf(parseJson(fs.files[PACKAGE_JSON]).value).Ok?)
    ensures r.result.Ok? ==> r.result == VersionOf(parseJson(fs.files[PACKAGE_JSON]).value)
    ensures FileEvents(r.events)
  {
    if PACKAGE_JSON !in fs.files then Step(Err(NotFound(PACKAGE_JSON)), fs, [])
    else
      match parseJson(fs.files[PACKAGE_JSON])
      case None => Step(Err(ParseError(PACKAGE_JSON)), fs, [Read(PACKAGE_JSON)])
      case Some(json) => Step(VersionOf(json), fs, [Read(PACKAGE_JSON)])
  }

  /** The `"version": "<v>"` text of a `package.json`. */
  function VersionEntry(version: string): (r: string)
    ensures |r| > 0
  {
    "\"version\": \"" + version + "\""
  }

  /** The new text of `package.json`: every `"version": "<old>"` becomes
      `"version": "<new>"`. */
  function BumpText(content: string, oldVersion: string, newVersion: string): string {
    Replace(content, VersionEntry(oldVersion), VersionEntry(newVersion))
  }

  /** The bump rewrites exactly the occurrences of the old entry: cutting
      the text at every `"version": "<old>"` gives pieces free of it, from
      which the old text is rebuilt with the old entry and the new text with
      the new entry. */
  lemma BumpTextReplacesEvery(content: string, oldVersion: string, newVersion: string)
    ensures exists pieces: seq<string> ::
      content == Join(pieces, VersionEntry(oldVersion))
      && BumpText(content, oldVersion, newVersion) == Join(pieces, VersionEntry(newVersion))
      && forall k :: 0 <= k < |pieces| ==> !Contains(pieces[k], VersionEntry(oldVersion))
  {
    ReplaceIsSplitJoin(content, VersionEntry(oldVersion), VersionEntry(newVersion));
  }

  /** A `package.json` without the old entry is written back unchanged. */
  lemma BumpTextWithoutEntry(content: string, oldVersion: string, newVersion: string)
    requires !Contains(content, VersionEntry(oldVersion))
    ensures BumpText(content, oldVersion, newVersion) == content
  {
    ReplaceAbsent(content, VersionEntry(oldVersion), VersionEntry(newVersion));
  }

  /** `bump_version`: reads `package.json`, reads the current version
      through `get_current_version`, replaces its entry and recreates the
      file with the result; a failing write panics. */
  function BumpVersion(fs: Fs, parseJson: string -> Option<Json>, newVersion: string): (r: Step<()>)
    ensures PACKAGE_JSON !in fs.files ==> r == Step(Err(NotFound(PACKAGE_JSON)), fs, [])
    ensures PACKAGE_JSON in fs.files && GetCurrentVersion(fs, parseJson).result.Err? ==>
      r == Step(Err(GetCurrentVersion(fs, parseJson).result.error), fs, [Read(PACKAGE_JSON), Read(PACKAGE_JSON)])
    ensures r.result.Ok? <==> GetCurrentVersion(fs, parseJson).result.Ok? && PACKAGE_JSON !in fs.failingWrites
    ensures r.result.Ok? ==>
      r.fs.files == fs.files[PACKAGE_JSON := BumpText(fs.files[PACKAGE_JSON], GetCurrentVersion(fs, parseJson).result.value, newVersion)]
      && r.events == [Read(PACKAGE_JSON), Read(PACKAGE_JSON), Write(PACKAGE_JSON)]
    ensures Write(PACKAGE_JSON) in r.events ==> r.result.Ok?
    ensures FileEvents(r.events)
  {
    if PACKAGE_JSON !in fs.files then Step(Err(NotFound(PACKAGE_JSON)), fs, [])
    else
      var content := fs.files[PACKAGE_JSON];
      var current := GetCurrentVersion(fs, parseJson);
      var events := [Read(PACKAGE_JSON)] + current.events;
      if current.result.Err? then Step(Err(current.result.error), fs, events)
      else
        var write := FsWrite(fs, PACKAGE_JSON, BumpText(content, current.result.value, newVersion));
        var result := if write.result.Ok? then Ok(()) else Err(Panic("js::bump_version"));
        Step(result, write.fs, events + write.events)
  }

  /** Whether `bun <args>` started and exited successfully. */
  predicate Passed(bun: BunRunner, args: seq<string>) {
    bun(args).Some? && bun(args).value.success
  }

  /** The error of a check that did not pass: the process could not be
      started, or it failed and its standard output follows `message`. */
  function CheckError(bun: BunRunner, args: seq<string>, message: string): (e: Error)
    requires !Passed(bun, args)
    ensures bun(args).None? ==> e == Spawn("bun")
    ensures bun(args).Some? ==> e == Failure(message + bun(args).value.stdout)
  {
    if bun(args).None? then Spawn("bun") else Failure(message + bun(args).value.stdout)
  }

  /** One check: its event and, when it does not pass, its error. */
  function Check(bun: BunRunner, args: seq<string>, message: string): (r: Reply<()>)
    ensures r.events == [Bun(args)]
    ensures r.result.Ok? <==> Passed(bun, args)
    ensures r.result.Err? ==> r.result.error == CheckError(bun, args, message)
  {
    if Passed(bun, args) then Reply(Ok(()), [Bun(args)])
    else Reply(Err(CheckError(bun, args, message)), [Bun(args)])
  }

  /** `run_checks`: eslint, then the type check, then the tests; the first
      check that does not pass ends the run with its error, and no later
      check is started. */
  function RunChecks(bun: BunRunner): (r: Reply<()>)
    ensures !Passed(bun, ESLINT_ARGS) ==> (r.events == [Bun(ESLINT_ARGS)]
      && r.result == Err(CheckError(bun, ESLINT_ARGS, "failed to check codestyle, see the following stack trace:\n\n")))
    ensures Passed(bun, ESLINT_ARGS) && !Passed(bun, TSC_ARGS) ==> (r.events == [Bun(ESLINT_ARGS), Bun(TSC_ARGS)]
      && r.result == Err(CheckError(bun, TSC_ARGS, "failed to check types, see the following stack trace:\n\n")))
    ensures Passed(bun, ESLINT_ARGS) && Passed(bun, TSC_ARGS) ==>
      r.events == [Bun(ESLINT_ARGS), Bun(TSC_ARGS), Bun(TEST_ARGS)]
    ensures Passed(bun, ESLINT_ARGS) && Passed(bun, TSC_ARGS) && !Passed(bun, TEST_ARGS) ==>
      r.result == Err(CheckError(bun, TEST_ARGS, "failed to pass tests, see the following stack trace:\n\n"))
    ensures r.result.Ok? <==> Passed(bun, ESLINT_ARGS) && Passed(bun, TSC_ARGS) && Passed(bun, TEST_ARGS)
    ensures forall e :: e in r.events ==> e.Bun?
  {
    var codestyle := Check(bun, ESLINT_ARGS, "failed to check codestyle, see the following stack trace:\n\n");
    if codestyle.result.Err? then codestyle
    else
      var types := Check(bun, TSC_ARGS, "failed to check types, see the following stack trace:\n\n");
      if types.result.Err? then Reply(types.result, codestyle.events + types.events)
      else
        var tests := Check(bun, TEST_ARGS, "failed to pass tests, see the following stack trace:\n\n");
        Reply(tests.result, codestyle.events + types.events + tests.events)
  }
}
