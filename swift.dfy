/** The Swift package adapter (src/implementations/swift.rs): the current
    version is the latest tag, and a bump rewrites the installation snippet
    of the README. `defaultVersion` stands for `version::DEFAULT`. */
module SwiftAdapter {
  import opened Common
  import opened Text
  import opened Utils
  import Git

  /** `get_current_version`: the first tag `git tag --sort=-v:refname`
      lists (the latest), or the default version when there is none. It
      never fails. */
  function GetCurrentVersion(git: GitRunner, defaultVersion: string): (r: Reply<string>)
    ensures r.result.Ok?
    ensures r.events == [Git(Git.TAGS_ARGS)]
    ensures var tags := Lines(git(Git.TAGS_ARGS).stdout);
      r.result.value == if |tags| > 0 then tags[0] else defaultVersion
    ensures |git(Git.TAGS_ARGS).stdout| == 0 ==> r.result.value == defaultVersion
  {
    var tags := Git.Tags(git);
    var versions := tags.result.value;
    Reply(Ok(if |versions| > 0 then versions[0] else defaultVersion), tags.events)
  }

  /** The current version is the first tag `git tag --sort=-v:refname`
      printed. */
  lemma CurrentIsLatestTag(git: GitRunner, defaultVersion: string, ts: seq<string>)
    requires |ts| >= 1
    requires forall k :: 0 <= k < |ts| ==> '\n' !in ts[k] && (|ts[k]| == 0 || ts[k][|ts[k]| - 1] != '\r')
    requires git(Git.TAGS_ARGS).stdout == Join(ts, "\n") + "\n"
    ensures GetCurrentVersion(git, defaultVersion).result.value == ts[0]
  {
    Git.TagsInOutputOrder(git, ts);
  }

  /** The `from: "<v>"` text of a Swift Package Manager dependency. */
  function FromEntry(version: string): (r: string)
    ensures |r| > 0
  {
    "from: \"" + version + "\""
  }

  /** The new text of the README: every `from: "<old>"` becomes
      `from: "<new>"`. */
  function BumpReadmeText(content: string, oldVersion: string, newVersion: string): string {
    Replace(content, FromEntry(oldVersion), FromEntry(newVersion))
  }

  /** The README bump rewrites exactly the occurrences of the old entry,
      and nothing in between them. */
  lemma BumpReadmeTextReplacesEvery(content: string, oldVersion: string, newVersion: string)
    ensures exists pieces: seq<string> ::
      content == Join(pieces, FromEntry(oldVersion))
      && BumpReadmeText(content, oldVersion, newVersion) == Join(pieces, FromEntry(newVersion))
      && forall k :: 0 <= k < |pieces| ==> !Contains(pieces[k], FromEntry(oldVersion))
  {
    ReplaceIsSplitJoin(content, FromEntry(oldVersion), FromEntry(newVersion));
  }

  /** Bumping to the version already there leaves the README as it is. */
  lemma BumpReadmeTextSameVersion(content: string, version: string)
    ensures BumpReadmeText(content, version, version) == content
  {
    ReplaceSame(content, FromEntry(version));
  }

  /** `bump_readme`: opens (or creates) the README, reads it and writes the
      rewritten text back. */
  function BumpReadme(fs: Fs, oldVersion: string, newVersion: string): (r: Step<()>)
    ensures r.result.Ok? <==> (README_MD in fs.files || README_MD in fs.creatable) && README_MD !in fs.failingWrites
    ensures r.result.Ok? ==>
      r.fs.files == fs.files[README_MD := BumpReadmeText(if README_MD in fs.files then fs.files[README_MD] else "", oldVersion, newVersion)]
    ensures README_MD in fs.files && r.result.Ok? ==> r.events == [Read(README_MD), Write(README_MD)]
    ensures r.fs.creatable == fs.creatable && r.fs.failingWrites == fs.failingWrites
    ensures forall p :: p in fs.files && p != README_MD ==> p in r.fs.files && r.fs.files[p] == fs.files[p]
    ensures FileEvents(r.events)
  {
    var handle := OpenFile(fs, README_MD);
    if handle.result.Err? then Step(Err(handle.result.error), handle.fs, handle.events)
    else
      var content := handle.fs.files[README_MD];
      var write := FsWrite(handle.fs, README_MD, BumpReadmeText(content, oldVersion, newVersion));
      Step(write.result, write.fs, handle.events + [Read(README_MD)] + write.events)
  }

  /** `bump_version`: the old version comes from the tag list, not from the
      README, and is then replaced in the README. */
  function BumpVersion(fs: Fs, git: GitRunner, defaultVersion: string, newVersion: string): (r: Step<()>)
    ensures var tags := Lines(git(Git.TAGS_ARGS).stdout);
      var oldVersion := if |tags| > 0 then tags[0] else defaultVersion;
      var bump := BumpReadme(fs, oldVersion, newVersion);
      r == Step(bump.result, bump.fs, [Git(Git.TAGS_ARGS)] + bump.events)
  {
    var current := GetCurrentVersion(git, defaultVersion);
    var bump := BumpReadme(fs, current.result.value, newVersion);
    Step(bump.result, bump.fs, current.events + bump.events)
  }
}
