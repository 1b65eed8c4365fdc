/** The languages the release tool supports and the detection of the
    project's language (src/language.rs). */
module Languages {
  import opened Common
  import opened Utils
  import JsAdapter
  import KotlinAdapter
  import RustAdapter

  /** The supported languages. The release pipeline also handles `Swift`,
      which detection never yields. */
  datatype Language = Rust | Kotlin | JsTs | Swift

  const UNDETECTED: string := "Couldn't detect the language, make sure to checkout to a valid branch."

  /** The `Display` name of a detected language; `Swift` has none. */
  function Display(lang: Language): (r: string)
    requires !lang.Swift?
    ensures lang.Rust? <==> r == "Rust"
    ensures lang.Kotlin? <==> r == "Kotlin"
    ensures lang.JsTs? <==> r == "JS/TS"
  {
    match lang
    case Rust => "Rust"
    case Kotlin => "Kotlin"
    case JsTs => "JS/TS"
  }

  /** `detect_language`: the first probe that opens its manifest wins, in
      the order `package.json` (read-only), `library/build.gradle.kts`
      (created when missing) and `Cargo.toml` (read-only). */
  function DetectLanguage(fs: Fs): (r: Step<Language>)
    ensures JsAdapter.PACKAGE_JSON in fs.files ==> r == Step(Ok(JsTs), fs, [])
    ensures r.result == Ok(Kotlin) <==>
      JsAdapter.PACKAGE_JSON !in fs.files
      && (KotlinAdapter.BUILD_GRADLE_KTS in fs.files || KotlinAdapter.BUILD_GRADLE_KTS in fs.creatable)
    ensures r.result == Ok(Rust) <==>
      JsAdapter.PACKAGE_JSON !in fs.files
      && KotlinAdapter.BUILD_GRADLE_KTS !in fs.files && KotlinAdapter.BUILD_GRADLE_KTS !in fs.creatable
      && RustAdapter.CARGO_TOML in fs.files
    ensures r.result.Err? <==>
      JsAdapter.PACKAGE_JSON !in fs.files
      && KotlinAdapter.BUILD_GRADLE_KTS !in fs.files && KotlinAdapter.BUILD_GRADLE_KTS !in fs.creatable
      && RustAdapter.CARGO_TOML !in fs.files
    ensures r.result.Err? ==> r.result.error == Failure(UNDETECTED)
    ensures r.result.Ok? ==> !r.result.value.Swift?
    ensures r.fs == OpenFile(fs, KotlinAdapter.BUILD_GRADLE_KTS).fs || r.fs == fs
    ensures r.fs != fs ==> r.result == Ok(Kotlin) && r.events == [Create(KotlinAdapter.BUILD_GRADLE_KTS)]
    ensures FileEvents(r.events)
  {
    if JsAdapter.PACKAGE_JSON in fs.files then Step(Ok(JsTs), fs, [])
    else
      var gradle := OpenFile(fs, KotlinAdapter.BUILD_GRADLE_KTS);
      if gradle.result.Ok? then Step(Ok(Kotlin), gradle.fs, gradle.events)
      else if RustAdapter.CARGO_TOML in fs.files then Step(Ok(Rust), fs, [])
      else Step(Err(Failure(UNDETECTED)), fs, [])
  }
}
