/** The Kotlin library adapter (src/implementations/kotlin.rs): the
    `version = "<v>"` assignment of `library/build.gradle.kts` and the
    dependency snippets of the README. */
module KotlinAdapter {
  import opened Common
  import opened Text
  import opened Utils

  const BUILD_GRADLE_KTS: string := "library/build.gradle.kts"

  /** What a line must contain to be the version assignment. */
  const VERSION_MARKER: string := "version = \""

  const MISSING_VERSION: string := "'build.gradle.kts' is missing 'version' variable."

  const ARTIFACT_START: string := "<artifactId>"
  const ARTIFACT_END: string := "</artifactId>"

  /** `Iterator::find` over lines with `contains(marker)`: the index of the
      first line that contains `marker`. */
  function FirstLineWith(lines: seq<string>, marker: string): (r: Option<nat>)
    ensures r.Some? ==> r.value < |lines| && Contains(lines[r.value], marker)
    ensures r.Some? ==> forall k :: 0 <= k < r.value ==> !Contains(lines[k], marker)
    ensures r.None? ==> forall k :: 0 <= k < |lines| ==> !Contains(lines[k], marker)
    decreases |lines|
  {
    if |lines| == 0 then None
    else if Contains(lines[0], marker) then Some(0)
    else match FirstLineWith(lines[1..], marker)
      case None => None
      case Some(i) => Some(i + 1)
  }

  /** The version in the text of a build script: the second piece, split at
      `"`, of the first line that contains `version = "`. */
  function VersionFromScript(content: string): (r: Result<string>)
    ensures r.Err? <==> forall k :: 0 <= k < |Lines(content)| ==> !Contains(Lines(content)[k], VERSION_MARKER)
    ensures r.Err? ==> r.error == Failure(MISSING_VERSION)
    ensures r.Ok? ==> var lines := Lines(content); var i := FirstLineWith(lines, VERSION_MARKER).value;
      |Split(lines[i], '"')| >= 2 && r.value == Split(lines[i], '"')[1] && '"' !in r.value
  {
    var lines := Lines(content);
    match FirstLineWith(lines, VERSION_MARKER)
    case None => Err(Failure(MISSING_VERSION))
    case Some(i) =>
      MarkerHasQuote(lines[i]);
      var pieces := Split(lines[i], '"');
      if |pieces| >= 2 then Ok(pieces[1]) else Err(Failure(MISSING_VERSION))
  }

  /** A line that contains the marker contains a quote, so it always splits
      into at least two pieces. */
  lemma MarkerHasQuote(line: string)
    requires Contains(line, VERSION_MARKER)
    ensures '"' in line
  {
    var i := Find(line, VERSION_MARKER).value;
    assert line[i + 10] == VERSION_MARKER[10];
  }

  /** `get_current_version`: opens the build script (creating an empty one
      when it is missing), reads it and takes its version. */
  function GetCurrentVersion(fs: Fs): (r: Step<string>)
    ensures r.result.Err? && OpenFile(fs, BUILD_GRADLE_KTS).result.Err? ==>
      r == Step(Err(NotFound(BUILD_GRADLE_KTS)), fs, [])
    ensures OpenFile(fs, BUILD_GRADLE_KTS).result.Ok? ==>
      r.fs == OpenFile(fs, BUILD_GRADLE_KTS).fs
      && r.events == OpenFile(fs, BUILD_GRADLE_KTS).events + [Read(BUILD_GRADLE_KTS)]
      && r.result == VersionFromScript(r.fs.files[BUILD_GRADLE_KTS])
    ensures r.result.Ok? ==> (BUILD_GRADLE_KTS in fs.files && r.fs == fs
      && r.result == VersionFromScript(fs.files[BUILD_GRADLE_KTS]))
    ensures FileEvents(r.events)
  {
    var handle := OpenFile(fs, BUILD_GRADLE_KTS);
    if handle.result.Err? then Step(Err(handle.result.error), fs, [])
    else
      var content := handle.fs.files[BUILD_GRADLE_KTS];
      Step(VersionFromScript(content), handle.fs, handle.events + [Read(BUILD_GRADLE_KTS)])
  }

  /** The `version = "<v>"` assignment. */
  function Assignment(version: string): (r: string)
    ensures |r| > |VERSION_MARKER| && r[..|VERSION_MARKER|] == VERSION_MARKER
  {
    VERSION_MARKER + version + "\""
  }

  /** The new text of the build script: only the first `version = "<old>"`
      becomes `version = "<new>"`. */
  function BumpScriptText(content: string, oldVersion: string, newVersion: string): string {
    ReplaceFirst(content, Assignment(oldVersion), Assignment(newVersion))
  }

  /** The script bump rewrites the first old assignment and keeps the text
      before and after it; a script without it is kept as it is. */
  lemma BumpScriptTextFirstOnly(content: string, oldVersion: string, newVersion: string)
    ensures Find(content, Assignment(oldVersion)).None? ==>
      BumpScriptText(content, oldVersion, newVersion) == content
    ensures Find(content, Assignment(oldVersion)).Some? ==>
      var i := Find(content, Assignment(oldVersion)).value;
      BumpScriptText(content, oldVersion, newVersion)
        == content[..i] + Assignment(newVersion) + content[i + |Assignment(oldVersion)|..]
  {
    if Contains(content, Assignment(oldVersion)) {
      ReplaceFirstAtFirst(content, Assignment(oldVersion), Assignment(newVersion));
    } else {
      ReplaceFirstAbsent(content, Assignment(oldVersion), Assignment(newVersion));
    }
  }

  /** Round trip: in a script whose first line with `version = "` holds
      `version = "<old>"` after quote-free text, the version read is `old`,
      and after the bump it is the new one. */
  lemma {:induction false} BumpThenRead(pre: string, a: string, oldVersion: string, b: string, rest: string, newVersion: string)
    requires pre == [] || pre[|pre| - 1] == '\n'
    requires !Contains(pre, VERSION_MARKER)
    requires '"' !in a && '\n' !in a
    requires '"' !in oldVersion && '\n' !in oldVersion
    requires '"' !in newVersion && '\n' !in newVersion
    requires '\n' !in b
    requires rest == [] || rest[0] == '\n'
    ensures var content := pre + a + Assignment(oldVersion) + b + rest;
      VersionFromScript(content) == Ok(oldVersion)
      && BumpScriptText(content, oldVersion, newVersion) == pre + a + Assignment(newVersion) + b + rest
      && VersionFromScript(BumpScriptText(content, oldVersion, newVersion)) == Ok(newVersion)
  {
    var content := pre + a + Assignment(oldVersion) + b + rest;
    ReadAssigned(pre, a, oldVersion, b, rest);
    BumpAssigned(pre, a, oldVersion, b, rest, newVersion);
    ReadAssigned(pre, a, newVersion, b, rest);
  }

  /** The version read from a script of that shape is the assigned one. */
  lemma ReadAssigned(pre: string, a: string, v: string, b: string, rest: string)
    requires pre == [] || pre[|pre| - 1] == '\n'
    requires !Contains(pre, VERSION_MARKER)
    requires '"' !in a && '\n' !in a
    requires '"' !in v && '\n' !in v
    requires '\n' !in b
    requires rest == [] || rest[0] == '\n'
    ensures VersionFromScript(pre + a + Assignment(v) + b + rest) == Ok(v)
  {
    var b' := if rest == [] then b else StripCr(b);
    assert pre + a + Assignment(v) + b + rest == pre + (a + Assignment(v) + b) + rest;
    AssignmentLineFound(pre, a, v, b, rest);
    SplitAssignment(a, v, b');
  }

  /** In a script of that shape, the first line with the marker is the
      assignment line, as `str::lines` yields it. */
  lemma AssignmentLineFound(pre: string, a: string, v: string, b: string, rest: string)
    requires pre == [] || pre[|pre| - 1] == '\n'
    requires !Contains(pre, VERSION_MARKER)
    requires '\n' !in a && '\n' !in v && '\n' !in b
    requires rest == [] || rest[0] == '\n'
    ensures var lines := Lines(pre + (a + Assignment(v) + b) + rest);
      var n := |Lines(pre)|;
      n < |lines| && FirstLineWith(lines, VERSION_MARKER) == Some(n)
      && lines[n] == a + Assignment(v) + (if rest == [] then b else StripCr(b))
  {
    var line := a + Assignment(v) + b;
    var content := pre + line + rest;
    NewlineFreeAssignment(v);
    var first := a + Assignment(v) + (if rest == [] then b else StripCr(b));
    AssignmentLineEnd(a + Assignment(v), b, rest);
    LineAfterLines(pre, line, rest);
    LinesWithout(pre, VERSION_MARKER);
    MarkerAfter(a, v, if rest == [] then b else StripCr(b));
    ContainsAt(first, VERSION_MARKER, |a|);
    FirstLineWithAt(Lines(content), |Lines(pre)|, VERSION_MARKER);
  }

  lemma NewlineFreeAssignment(v: string)
    requires '\n' !in v
    ensures '\n' !in Assignment(v)
  {
    assert '\n' !in VERSION_MARKER by {
      forall i | 0 <= i < |VERSION_MARKER| ensures VERSION_MARKER[i] != '\n' { }
    }
    assert Assignment(v) == VERSION_MARKER + v + ['"'];
  }

  /** The marker starts right after the text before the assignment. */
  lemma MarkerAfter(a: string, v: string, b: string)
    ensures (a + Assignment(v) + b)[|a|..|a| + |VERSION_MARKER|] == VERSION_MARKER
  {
    var x := Assignment(v);
    assert a + x + b == a + (x + b);
    assert (a + (x + b))[|a|..] == x + b;
    assert (x + b)[..|VERSION_MARKER|] == x[..|VERSION_MARKER|];
  }

  /** The line `str::lines` yields for `x + b`, ended by `rest`, when `x`
      does not end in `\r`. */
  lemma AssignmentLineEnd(x: string, b: string, rest: string)
    requires |x| > 0 && x[|x| - 1] != '\r'
    ensures (if rest == [] then x + b else StripCr(x + b)) == x + (if rest == [] then b else StripCr(b))
  {
    if |b| > 0 {
      assert (x + b)[..|x + b| - 1] == x + b[..|b| - 1];
    } else {
      assert x + b == x;
    }
  }

  /** The index of a line with the marker after lines without it is what
      the line search finds. */
  lemma FirstLineWithAt(lines: seq<string>, n: nat, marker: string)
    requires n < |lines| && Contains(lines[n], marker)
    requires forall k :: 0 <= k < n ==> !Contains(lines[k], marker)
    ensures FirstLineWith(lines, marker) == Some(n)
  {
  }

  /** The second piece of the assignment line split at quotes is the version. */
  lemma SplitAssignment(a: string, v: string, b: string)
    requires '"' !in a && '"' !in v
    ensures |Split(a + Assignment(v) + b, '"')| >= 2
    ensures Split(a + Assignment(v) + b, '"')[1] == v
  {
    var x := a + "version = ";
    assert a + Assignment(v) + b == x + ['"'] + (v + ['"'] + b);
    SplitAfter(x, '"', v + ['"'] + b);
    SplitAfter(v, '"', b);
  }

  /** The first occurrence of the old assignment in a script of that shape
      is the one after `pre + a`, so the bump rewrites exactly it. */
  lemma BumpAssigned(pre: string, a: string, oldVersion: string, b: string, rest: string, newVersion: string)
    requires pre == [] || pre[|pre| - 1] == '\n'
    requires !Contains(pre, VERSION_MARKER)
    requires '"' !in a
    ensures BumpScriptText(pre + a + Assignment(oldVersion) + b + rest, oldVersion, newVersion)
      == pre + a + Assignment(newVersion) + b + rest
  {
    var from := Assignment(oldVersion);
    var to := Assignment(newVersion);
    var head := pre + a;
    var tail := b + rest;
    var content := head + from + tail;
    assert pre + a + from + b + rest == content;
    NoAssignmentBefore(pre, a, from, tail);
    ReplaceFirstAfter(head, from, tail, to);
    assert pre + a + to + b + rest == head + to + tail;
  }

  /** No assignment starts inside `pre + a`: one starting inside `pre`
      would put the marker in `pre` or a newline in the marker, and one
      starting inside `a` would need a quote in `a` or in `version = `. */
  lemma NoAssignmentBefore(pre: string, a: string, from: string, tail: string)
    requires pre == [] || pre[|pre| - 1] == '\n'
    requires !Contains(pre, VERSION_MARKER)
    requires '"' !in a
    requires |from| > |VERSION_MARKER| && from[..|VERSION_MARKER|] == VERSION_MARKER
    ensures NoneBefore(pre + a + from + tail, from, |pre| + |a|)
  {
    var content := pre + a + from + tail;
    var q := |pre| + |a|;
    forall j | 0 <= j < q ensures !OccursAt(content, from, j) {
      if j + |from| <= |content| {
        var window := content[j..j + 11];
        assert content[j..j + |from|][..11] == window;
        if j + 11 <= |pre| {
          assert pre[j..j + 11] == window;
          assert !OccursAt(pre, VERSION_MARKER, j);
        } else if j < |pre| {
          assert window[|pre| - 1 - j] == content[|pre| - 1] == '\n';
        } else if j + 10 < q {
          assert window[10] == content[j + 10] == a[j + 10 - |pre|];
        } else {
          assert window[10] == content[j + 10] == from[j + 10 - q] == VERSION_MARKER[j + 10 - q];
        }
        assert window != VERSION_MARKER;
      }
    }
  }

  /** `bump_build_gradle_kts`: opens (or creates) the script, reads it and
      writes back the text with the first old assignment replaced. */
  function BumpBuildGradleKts(fs: Fs, oldVersion: string, newVersion: string): (r: Step<()>)
    ensures BUILD_GRADLE_KTS in fs.files ==>
      r.events == (if r.result.Ok? then [Read(BUILD_GRADLE_KTS), Write(BUILD_GRADLE_KTS)] else [Read(BUILD_GRADLE_KTS)])
    ensures r.result.Ok? <==> ((BUILD_GRADLE_KTS in fs.files || BUILD_GRADLE_KTS in fs.creatable)
      && BUILD_GRADLE_KTS !in fs.failingWrites)
    ensures BUILD_GRADLE_KTS in fs.files && r.result.Ok? ==>
      r.fs.files == fs.files[BUILD_GRADLE_KTS := BumpScriptText(fs.files[BUILD_GRADLE_KTS], oldVersion, newVersion)]
    ensures BUILD_GRADLE_KTS in fs.files && r.result.Err? ==> r.fs == fs
    ensures FileEvents(r.events)
    ensures r.fs.creatable == fs.creatable && r.fs.failingWrites == fs.failingWrites
  {
    var handle := OpenFile(fs, BUILD_GRADLE_KTS);
    if handle.result.Err? then Step(Err(handle.result.error), fs, [])
    else
      var content := handle.fs.files[BUILD_GRADLE_KTS];
      var write := FsWrite(handle.fs, BUILD_GRADLE_KTS, BumpScriptText(content, oldVersion, newVersion));
      Step(write.result, write.fs, handle.events + [Read(BUILD_GRADLE_KTS)] + write.events)
  }

  /** The Maven dependency snippet's `<version>v</version>`. */
  function MavenEntry(version: string): string {
    "<version>" + version + "</version>"
  }

  /** The Gradle Kotlin DSL dependency `implementation("ink.literate:<artifact>:<v>")`. */
  function GradleKotlinEntry(artifact: string, version: string): string {
    "implementation(\"ink.literate:" + artifact + ":" + version + "\")"
  }

  /** The Gradle Groovy DSL dependency `implementation 'ink.literate:<artifact>:<v>'`. */
  function GradleEntry(artifact: string, version: string): string {
    "implementation 'ink.literate:" + artifact + ":" + version + "'"
  }

  /** The artifact id of the README: the text between the first
      `<artifactId>` and the next `</artifactId>`. */
  function ArtifactId(content: string): (r: string)
    requires FindBetweenDefined(content, ARTIFACT_START, ARTIFACT_END)
    ensures !Contains(r, ARTIFACT_END)
    ensures exists i :: OccursAt(content, ARTIFACT_START + r + ARTIFACT_END, i) && NoneBefore(content, ARTIFACT_START, i)
  {
    FindBetween(content, ARTIFACT_START, ARTIFACT_END)
  }

  /** The new text of the README: the Maven, then the Gradle Kotlin DSL,
      then the Gradle snippet of the old version become the new version.
      The artifact id is taken from the text before any replacement. */
  function BumpReadmeText(content: string, oldVersion: string, newVersion: string): string
    requires FindBetweenDefined(content, ARTIFACT_START, ARTIFACT_END)
  {
    var artifact := ArtifactId(content);
    var maven := Replace(content, MavenEntry(oldVersion), MavenEntry(newVersion));
    var kotlinDsl := Replace(maven, GradleKotlinEntry(artifact, oldVersion), GradleKotlinEntry(artifact, newVersion));
    Replace(kotlinDsl, GradleEntry(artifact, oldVersion), GradleEntry(artifact, newVersion))
  }

  /** Each of the three rewrites of the README replaces every occurrence of
      its old snippet and keeps the text between them: the text before each
      rewrite is the join of snippet-free pieces with the old snippet, and
      the text after it the join of the same pieces with the new one. */
  lemma BumpReadmeTextReplacesEvery(content: string, oldVersion: string, newVersion: string)
    requires FindBetweenDefined(content, ARTIFACT_START, ARTIFACT_END)
    ensures var artifact := ArtifactId(content);
      var maven := Replace(content, MavenEntry(oldVersion), MavenEntry(newVersion));
      var kotlinDsl := Replace(maven, GradleKotlinEntry(artifact, oldVersion), GradleKotlinEntry(artifact, newVersion));
      && ReplacesEvery(content, maven, MavenEntry(oldVersion), MavenEntry(newVersion))
      && ReplacesEvery(maven, kotlinDsl, GradleKotlinEntry(artifact, oldVersion), GradleKotlinEntry(artifact, newVersion))
      && ReplacesEvery(kotlinDsl, BumpReadmeText(content, oldVersion, newVersion),
           GradleEntry(artifact, oldVersion), GradleEntry(artifact, newVersion))
  {
    var artifact := ArtifactId(content);
    var maven := Replace(content, MavenEntry(oldVersion), MavenEntry(newVersion));
    var kotlinDsl := Replace(maven, GradleKotlinEntry(artifact, oldVersion), GradleKotlinEntry(artifact, newVersion));
    ReplaceIsSplitJoin(content, MavenEntry(oldVersion), MavenEntry(newVersion));
    ReplaceIsSplitJoin(maven, GradleKotlinEntry(artifact, oldVersion), GradleKotlinEntry(artifact, newVersion));
    ReplaceIsSplitJoin(kotlinDsl, GradleEntry(artifact, oldVersion), GradleEntry(artifact, newVersion));
  }

  /** `after` is `before` with every occurrence of `from` turned into `to`
      and nothing else changed. */
  ghost predicate ReplacesEvery(before: string, after: string, from: string, to: string) {
    exists pieces: seq<string> ::
      before == Join(pieces, from) && after == Join(pieces, to)
      && forall k :: 0 <= k < |pieces| ==> !Contains(pieces[k], from)
  }

  /** A README without any of the three old snippets is written back as it is. */
  lemma BumpReadmeTextWithoutSnippets(content: string, oldVersion: string, newVersion: string)
    requires FindBetweenDefined(content, ARTIFACT_START, ARTIFACT_END)
    requires !Contains(content, MavenEntry(oldVersion))
    requires !Contains(content, GradleKotlinEntry(ArtifactId(content), oldVersion))
    requires !Contains(content, GradleEntry(ArtifactId(content), oldVersion))
    ensures BumpReadmeText(content, oldVersion, newVersion) == content
  {
    var artifact := ArtifactId(content);
    ReplaceAbsent(content, MavenEntry(oldVersion), MavenEntry(newVersion));
    ReplaceAbsent(content, GradleKotlinEntry(artifact, oldVersion), GradleKotlinEntry(artifact, newVersion));
    ReplaceAbsent(content, GradleEntry(artifact, oldVersion), GradleEntry(artifact, newVersion));
  }

  /** `bump_readme`: opens (or creates) the README, reads it, looks up the
      artifact id (a panic when the markers are missing) and writes back the
      rewritten text. */
  function BumpReadme(fs: Fs, oldVersion: string, newVersion: string): (r: Step<()>)
    ensures README_MD in fs.files && !FindBetweenDefined(fs.files[README_MD], ARTIFACT_START, ARTIFACT_END) ==>
      r == Step(Err(Panic("find_between")), fs, [Read(README_MD)])
    ensures r.result.Ok? <==>
      README_MD in fs.files && FindBetweenDefined(fs.files[README_MD], ARTIFACT_START, ARTIFACT_END)
      && README_MD !in fs.failingWrites
    ensures r.result.Ok? ==>
      r.fs.files == fs.files[README_MD := BumpReadmeText(fs.files[README_MD], oldVersion, newVersion)]
      && r.events == [Read(README_MD), Write(README_MD)]
    ensures r.fs.creatable == fs.creatable && r.fs.failingWrites == fs.failingWrites
    ensures Write(README_MD) in r.events ==> r.result.Ok?
    ensures FileEvents(r.events)
  {
    var handle := OpenFile(fs, README_MD);
    if handle.result.Err? then Step(Err(handle.result.error), fs, [])
    else
      var content := handle.fs.files[README_MD];
      var events := handle.events + [Read(README_MD)];
      if !FindBetweenDefined(content, ARTIFACT_START, ARTIFACT_END) then
        Step(Err(Panic("find_between")), handle.fs, events)
      else
        var write := FsWrite(handle.fs, README_MD, BumpReadmeText(content, oldVersion, newVersion));
        Step(write.result, write.fs, events + write.events)
  }

  /** `bump_version`: reads the old version first, then bumps the build
      script, then the README; a failure stops the later steps. */
  function BumpVersion(fs: Fs, newVersion: string): (r: Step<()>)
    ensures GetCurrentVersion(fs).result.Err? ==>
      r == Step(Err(GetCurrentVersion(fs).result.error), GetCurrentVersion(fs).fs, GetCurrentVersion(fs).events)
    ensures GetCurrentVersion(fs).result.Ok? && BUILD_GRADLE_KTS in fs.failingWrites ==>
      r == Step(Err(WriteFailed(BUILD_GRADLE_KTS)), fs, [Read(BUILD_GRADLE_KTS), Read(BUILD_GRADLE_KTS)])
    ensures r.result.Ok? <==>
      GetCurrentVersion(fs).result.Ok? && BUILD_GRADLE_KTS !in fs.failingWrites
      && README_MD in fs.files && FindBetweenDefined(fs.files[README_MD], ARTIFACT_START, ARTIFACT_END)
      && README_MD !in fs.failingWrites
    ensures r.result.Ok? ==>
      var oldVersion := VersionFromScript(fs.files[BUILD_GRADLE_KTS]).value;
      r.fs.files == fs.files
        [BUILD_GRADLE_KTS := BumpScriptText(fs.files[BUILD_GRADLE_KTS], oldVersion, newVersion)]
        [README_MD := BumpReadmeText(fs.files[README_MD], oldVersion, newVersion)]
      && r.events == [Read(BUILD_GRADLE_KTS), Read(BUILD_GRADLE_KTS), Write(BUILD_GRADLE_KTS), Read(README_MD), Write(README_MD)]
    ensures FileEvents(r.events)
  {
    var current := GetCurrentVersion(fs);
    if current.result.Err? then Step(Err(current.result.error), current.fs, current.events)
    else
      var oldVersion := current.result.value;
      var script := BumpBuildGradleKts(current.fs, oldVersion, newVersion);
      var events := current.events + script.events;
      if script.result.Err? then Step(Err(script.result.error), script.fs, events)
      else
        var readme := BumpReadme(script.fs, oldVersion, newVersion);
        Step(readme.result, readme.fs, events + readme.events)
  }
}
