# Mentor release tool — a Dafny model of its release core

Mentor releases a project in one run. It detects the project's language
(JavaScript/TypeScript, Kotlin or Rust; a Swift branch exists in the
pipeline as well). For JavaScript/TypeScript it runs the checks through
`bun`. It refuses a dirty working tree and a branch behind its upstream.
It reads the current version from the project's manifest and asks the user
for the next version. It rewrites the manifest (and, for Kotlin, the README)
with the next version. It then deletes any stale tag, adds, commits, tags
and pushes, and finally hands a changelog built from `git log old..new`
over for publishing as release `v<new>`.

The model covers:

- the repository queries (`git.rs`): changelog rendering, the dirty gate,
  the behind-upstream count, tags, branch name and remote URL;
- the file helpers (`utils.rs`): `find_between`, `open_file`, and
  `write_file` as an in-place update of an open file handle;
- language detection and its display names (`language.rs`);
- the four project adapters (`implementations/*.rs`): reading the version
  and rewriting it by text substitution, or over a tree for Rust;
- the release pipeline of `main.rs`: a function `Release.Pipeline` states
  the run, and a method `Release.Release` performs it step by step, with
  its loop over the git commands. The method is proved to give the same
  result, file system and trace.

How the model represents the program:

- Git, `bun`, the user's prompt, the JSON and TOML libraries and the
  default version are parameters (`Release.Env`).
- The file system is a value `Utils.Fs`: file contents by path, the paths
  where a missing file can be created, and the paths whose writes fail.
- Each step returns its result, the new file system and a trace of
  events: git and bun invocations, file creates, reads and writes, the
  prompt, and the publish hand-off.
- Whole-run properties are stated over the trace, in module
  `ReleaseProperties`.

Text operations of the Rust standard library (`lines`, `trim`, `find`,
`replace`, `replacen`, `split`, `join`, `parse::<u32>`) are modelled in
module `Text` with the standard library's semantics:

- `lines` splits at `\n` and drops one `\r` before it;
- `trim` removes Unicode white space;
- `u32` parsing accepts an optional `+`, ASCII digits and values up to
  4294967295.

Two behaviours of the code are easy to misread, and the model keeps them
as written:

- `language.rs` declares only `Rust`, `Kotlin` and `JsTs`, while `main.rs`
  matches a `Swift` variant as well. The model's `Language` has all four,
  and `DetectLanguage` never yields `Swift`.
- `diff` reverses the log and then pops the last element. That drops the
  first line `git log` printed, which is the newest commit (the release
  commit), so the changelog lists the other commits oldest first.

## Model

| member | source | states |
|---|---|---|
| Git.ChangelogEntries | src/git.rs:22-34 | one bullet per log line but the newest, oldest first, each `* ` followed by the line; an empty log gives no bullet |
| Git.ChangelogOfShortLog | src/git.rs:22-34 | an empty or one-line log gives empty release notes (`pop` on an empty list is no error) |
| Git.ChangelogLines | src/git.rs:30-34 | the release notes split at `\n` give back exactly the bullets, one fewer than the log lines and in reverse order, so there is no trailing newline |
| Git.Reverse | src/git.rs:25 | in-place reversal of an array: element k becomes the old element n-1-k |
| Git.Diff | src/git.rs:16-35 | runs only `git log --oneline --pretty=format:%s (%h) old..new`; reversing the lines in place, popping one and joining the bullets gives exactly the changelog specified by `Changelog` |
| Git.IsRepoDirty | src/git.rs:50-59 | runs `git status --porcelain`; fails exactly when it exits with failure; dirty exactly when it printed anything |
| Git.IsBehindUpstream | src/git.rs:61-82 | a failed fetch is an error and `rev-list` is not run; a failed `rev-list` is its own error; otherwise behind exactly when the parsed count is positive |
| Git.BehindIffPositiveCount | src/git.rs:76-81 | behind exactly when the trimmed output parses as a 32-bit count greater than zero; output that does not parse counts as zero |
| Git.BehindCountOfPrintedCount | src/git.rs:76-81 | a count printed as digits and a newline reads back as itself when it fits in 32 bits and as zero otherwise |
| Git.Tags | src/git.rs:85-90 | runs only `git tag --sort=-v:refname`; newline-free tags; no tag exactly when git printed nothing |
| Git.TagsInOutputOrder | src/git.rs:89 | for output made of newline-ended tag names, the tags are exactly those names, in the printed order |
| Git.BehindCount | src/git.rs:76-79 | the count read from `rev-list --count` always fits in 32 bits (unparsable output counts as zero, see `Git.BehindIffPositiveCount`) |
| Git.BranchName | src/git.rs:44-48 | runs only `git rev-parse --abbrev-ref HEAD` and never fails; the value is characterised by `Git.BranchNameTrimmed` |
| Git.OriginUrl | src/git.rs:37-42 | runs only `git remote get-url origin` and never fails; the value is characterised by `Git.OriginUrlTrimmed` |
| Git.BranchNameTrimmed | src/git.rs:44-48 | the branch name is the output of `rev-parse --abbrev-ref HEAD` with leading and trailing white space removed |
| Git.OriginUrlTrimmed | src/git.rs:37-42 | the remote URL is the output of `remote get-url origin` with leading and trailing white space removed |
| Text.Find | src/utils.rs:9 | `str::find`: the first index where the pattern occurs, or none when it occurs nowhere |
| Text.Lines | src/git.rs:22 | `str::lines`: newline-free pieces; none exactly for the empty text |
| Text.LinesOfTerminated | src/git.rs:89 | `str::lines` reads newline-ended lines without a trailing `\r` back exactly, in order |
| Text.TrimIsTrimmedOf | src/git.rs:41 | `str::trim` returns the text between the leading and trailing white space, starting and ending with non-white space |
| Text.JoinSplit | src/implementations/kotlin.rs:22-24 | splitting at a character and joining with it gives the text back |
| Text.SplitJoin | src/git.rs:30-34 | joining newline-free pieces with a separator and splitting at it gives the pieces back |
| Text.ReplaceIsSplitJoin | src/implementations/js.rs:80 | `str::replace` cuts the text into pieces free of the pattern, which join back to the text with the pattern and to the result with the replacement |
| Text.ReplaceFirstAtFirst | src/implementations/kotlin.rs:39 | `replacen(from, to, 1)` rewrites only the first occurrence and keeps the text before and after it |
| Text.ParseDecimalString | src/git.rs:78 | digits printed for a number parse back to it when it fits in 32 bits |
| Utils.FindBetween | src/utils.rs:8-16 | the result sits right after the first `start` and is followed by `end`, and no `end` starts earlier after that `start`; it contains no `end` |
| Utils.OpenFile | src/utils.rs:26-33 | opens an existing file without changing it, creates an empty file when it is missing and its directory exists, fails otherwise |
| Utils.FsWrite | src/utils.rs:42-52 | a successful write leaves the file holding exactly the given text; a failed one changes nothing |
| Utils.File.Seek | src/utils.rs:44 | moves the cursor, contents unchanged |
| Utils.File.SetLen | src/utils.rs:45 | cuts or NUL-pads the contents to the length, cursor unchanged |
| Utils.File.ReadToString | src/utils.rs:37 | returns the contents from the cursor on and moves the cursor to the end |
| Utils.File.WriteAll | src/utils.rs:48 | overwrites from the cursor, extending the file, and moves the cursor past the data |
| Utils.Resized | src/utils.rs:45 | the new length, the kept prefix of the old contents, and NUL characters past the old end |
| Utils.Overwritten | src/utils.rs:48 | the data at the cursor, the old contents before it and after it, and NUL characters between the old end and a cursor past it |
| Utils.ReadFile | src/utils.rs:35-40 | the contents from the cursor on, leaving the cursor at the end of the file |
| Utils.WriteFile | src/utils.rs:42-52 | after rewind, truncation and write, the file holds exactly the content, with no tail of its former contents |
| Utils.Rewrite | src/utils.rs:35-52 | opening a file, reading it and writing a text computed from what was read leaves the handle holding what `FsWrite` leaves in the file system |
| Languages.Display | src/language.rs:11-23 | Rust, Kotlin and JsTs are shown as `Rust`, `Kotlin` and `JS/TS` |
| Languages.DetectLanguage | src/language.rs:25-47 | JsTs whenever `package.json` opens; Kotlin exactly when it does not and the build script opens or can be created; Rust exactly when both fail and `Cargo.toml` opens; an error exactly when all three fail; never Swift; only the Kotlin probe can create a file |
| JsAdapter.Get | src/implementations/js.rs:53 | a field of an object, nothing for any other value |
| JsAdapter.VersionOf | src/implementations/js.rs:53-65 | a missing `version` and a non-string `version` are two distinct errors; otherwise the string itself |
| JsAdapter.GetCurrentVersion | src/implementations/js.rs:49-66 | reads only `package.json` and changes no file; succeeds exactly when it exists, parses and has a string version |
| JsAdapter.BumpTextReplacesEvery | src/implementations/js.rs:77-80 | every `"version": "<old>"` becomes `"version": "<new>"` and the text between occurrences is kept |
| JsAdapter.BumpTextWithoutEntry | src/implementations/js.rs:80 | a file without the old entry is written back unchanged |
| JsAdapter.BumpVersion | src/implementations/js.rs:71-86 | a failed version read ends the bump before any write; on success `package.json` holds the rewritten text and nothing else changed |
| JsAdapter.CheckError | src/implementations/js.rs:11-38 | a check that cannot start is a spawn error; a failed one reports its message followed by the tool's standard output |
| JsAdapter.Check | src/implementations/js.rs:11-18 | one `bun` run; it passes exactly when bun started and exited successfully |
| JsAdapter.RunChecks | src/implementations/js.rs:9-41 | eslint, then `tsc --noEmit`, then tests; the first failure is the result and no later check is started; success exactly when all three pass |
| KotlinAdapter.FirstLineWith | src/implementations/kotlin.rs:17-20 | the index of the first line that contains the marker, none when no line does |
| KotlinAdapter.VersionFromScript | src/implementations/kotlin.rs:17-25 | fails exactly when no line contains `version = "`; otherwise the second `"`-separated piece of the first such line, which holds no quote |
| KotlinAdapter.MarkerHasQuote | src/implementations/kotlin.rs:22-25 | a line with the marker has a quote, so the `nth(1)` error branch cannot be reached |
| KotlinAdapter.GetCurrentVersion | src/implementations/kotlin.rs:13-28 | opens (creating if missing) and reads the build script; on success the script existed and is unchanged, and the version is the one in its text |
| KotlinAdapter.BumpScriptTextFirstOnly | src/implementations/kotlin.rs:34-39 | only the first `version = "<old>"` is rewritten, the rest of the script is kept; a script without it is unchanged |
| KotlinAdapter.BumpThenRead | src/implementations/kotlin.rs:17-39 | when the first line with `version = "` assigns `<old>` after quote-free text, the version read is `<old>`, the bump rewrites exactly that assignment, and the version read afterwards is `<new>` |
| KotlinAdapter.BumpBuildGradleKts | src/implementations/kotlin.rs:30-44 | on success the script holds the rewritten text; a failed write changes nothing |
| KotlinAdapter.ArtifactId | src/implementations/kotlin.rs:49 | the text after the first `<artifactId>` up to the next `</artifactId>`, free of `</artifactId>` |
| KotlinAdapter.BumpReadmeTextReplacesEvery | src/implementations/kotlin.rs:51-64 | each of the Maven, Gradle Kotlin DSL and Gradle rewrites replaces every old snippet with the new one and keeps the text between them |
| KotlinAdapter.BumpReadmeTextWithoutSnippets | src/implementations/kotlin.rs:51-64 | a README without any old snippet is unchanged |
| KotlinAdapter.BumpReadme | src/implementations/kotlin.rs:46-69 | missing artifact markers panic before any write; on success the README holds the rewritten text |
| KotlinAdapter.BumpVersion | src/implementations/kotlin.rs:71-78 | reads the old version before any write; a failing script write stops before the README; on success both files hold their rewritten texts, in that order |
| RustAdapter.Get | src/implementations/rust.rs:16-18 | an entry of a table, nothing for any other value |
| RustAdapter.VersionOf | src/implementations/rust.rs:16-20 | succeeds exactly when `package.version` exists and is a string |
| RustAdapter.SetPackageVersion | src/implementations/rust.rs:32-37 | succeeds exactly when `package.version` exists, whatever its type; afterwards it is the new string and every other entry of the document and of `package` is kept |
| RustAdapter.BumpAcceptsWhatReadRejects | src/implementations/rust.rs:16-35 | a non-string version is rejected by the read and overwritten by the bump |
| RustAdapter.GetCurrentVersion | src/implementations/rust.rs:12-23 | reads only `Cargo.toml`; an unparsable file is an error; otherwise the version of the parsed document |
| RustAdapter.BumpVersion | src/implementations/rust.rs:26-44 | succeeds exactly when the file exists, parses, has `package.version` and can be written; then it holds the printed updated document; a failure writes nothing |
| RustAdapter.BumpThenRead | src/implementations/rust.rs:16-37 | when the TOML library reads back what it prints, the version read after a bump to `v` is `v` |
| SwiftAdapter.GetCurrentVersion | src/implementations/swift.rs:7-16 | never fails; the first tag when there are tags, the default version otherwise |
| SwiftAdapter.CurrentIsLatestTag | src/implementations/swift.rs:8-11 | the current version is the first tag name git printed |
| SwiftAdapter.BumpReadmeTextReplacesEvery | src/implementations/swift.rs:23-25 | every `from: "<old>"` becomes `from: "<new>"` and the text between occurrences is kept |
| SwiftAdapter.BumpReadmeTextSameVersion | src/implementations/swift.rs:23-25 | bumping to the version already there leaves the README as it is |
| SwiftAdapter.BumpReadme | src/implementations/swift.rs:18-30 | opens (or creates) the README and leaves it holding the rewritten text; no other file changes |
| SwiftAdapter.BumpVersion | src/implementations/swift.rs:32-38 | the old version is the latest tag (or the default), never the README's |
| Release.CommandsRecordRelease | src/main.rs:113-118 | four commands, in the order add, commit, annotated tag, push, each of them one that records or publishes the release |
| Release.RunCommands | src/main.rs:120-127 | succeeds exactly when every command succeeds, then each was invoked once, in order |
| Release.RunCommandsStopsAtFirstFailure | src/main.rs:120-127 | the first failing command ends the run with its standard error, and no later command is invoked |
| Release.Checks | src/main.rs:36-41 | only JavaScript/TypeScript runs checks |
| Release.Preflight | src/main.rs:50-70 | a dirty tree stops the run after `git status`, before any fetch; a branch behind its upstream stops it after the probes; the gates pass exactly when the tree is clean and not behind |
| Release.PreflightOnlyProbes | src/main.rs:50-70 | whatever the outcome, the gates run only status, branch, fetch and rev-list |
| Release.CurrentVersion | src/main.rs:79-84 | the read of the current version writes nothing and records nothing; for Swift it only lists tags |
| Release.Bump | src/main.rs:92-97 | Swift bumps nothing; every other bump only touches files |
| Release.Record | src/main.rs:103-127 | the ignored `tag -d <new>` and the branch lookup come first, and only the commands decide the outcome |
| Release.RecordIgnoresTagDelete | src/main.rs:103-127 | recording succeeds exactly when the four commands succeed, whatever `tag -d` returns |
| Release.Publishing | src/main.rs:103-135 | a failed recording publishes nothing; otherwise the changelog over `old..new` is handed over as release `v<new>`; success exactly when something is published |
| Release.BumpAndPublish | src/main.rs:90-135 | the prompt comes first, and a run that succeeded bumped the version the user typed |
| Release.FromCurrentVersion | src/main.rs:79-135 | a run that succeeded read the current version |
| Release.ReleaseAs | src/main.rs:33-135 | a run that succeeded passed the checks and both repository gates |
| Release.Pipeline | src/main.rs:25-141 | a run that succeeded detected a language; an undetected language ends the run at once, with no event and no file touched |
| Release.RecordRelease | src/main.rs:103-127 | the loop over the commands, stopping at the first failure, gives the same outcome and trace as `Record` |
| Release.CheckRepository | src/main.rs:46-73 | the gates step by step give the same outcome and trace as `Preflight` |
| Release.PublishRelease | src/main.rs:103-135 | recording then publishing step by step gives the same outcome and trace as `Publishing` |
| Release.ReleaseWith | src/main.rs:33-135 | the run after detection step by step gives the same outcome, files and trace as `ReleaseAs` |
| Release.Release | src/main.rs:25-141 | the whole run step by step gives the same outcome, files and trace as `Pipeline` |
| ReleaseProperties.WritesBeforeRelease | src/main.rs:92-118 | no file is written after any add, commit, tag or push |
| ReleaseProperties.PublishIffSuccess | src/main.rs:120-141 | a run succeeds exactly when it hands a release over for publishing |
| ReleaseProperties.DirtyAborts | src/main.rs:50-58 | a dirty tree ends the run right after `git status`, with the files as detection left them |
| ReleaseProperties.BehindAborts | src/main.rs:61-70 | a branch behind its upstream ends the run after the probes, before any version is read |
| ReleaseProperties.SuccessfulRelease | src/main.rs:79-135 | a successful run bumped the user's version into the files, all four commands succeeded, and the run ends with them, `git log old..new` and the hand-over of its changelog as `v<new>` |
| ReleaseProperties.SwiftTouchesNoFile | src/main.rs:79-97 | a Swift release reads, creates and writes no file and leaves the file system unchanged |

## Left out

- Running programs: `git` and `bun` are parameters that give each argument vector's output and exit status. The `expect` panic when git cannot be started, lossy UTF-8 decoding and console logging are not modelled.
- Spinners, colours and `println!` output are not modelled.
- `cli::prompt_new_version` and `github::open_create_release` are not part of this model. The prompt is a function from the old version to the new one, and the hand-over is a `Publish` event carrying the body, the version and the name.
- `version::DEFAULT` is not part of this model; it is the parameter `defaultVersion`.
- serde_json and the toml crate are not part of this model. Parsing and printing are parameters over the abstract `Json` and `Toml` trees, and nothing is claimed about how printing preserves the file's formatting.
- RustAdapter.SetPackageVersion: the update through `get_mut` in place is modelled as a function returning the updated tree.
- RustAdapter.BumpVersion: `rust.rs` opens `Cargo.toml` with `File::open`, which is read-only, and then calls `set_len(0)` on that handle (rust.rs:8-10 and 27-40). On a real file system that call fails, so the bump ends with an I/O error before anything is written. Even on a writable handle, `write_all` would start at the cursor that `read_file` left at the end of the file. The model instead treats the bump as an overwrite that succeeds exactly when the file can be written, which is what the code evidently intends.
- JsAdapter.BumpVersion: `File::create` truncates and recreates `package.json`; only its effect on the contents is modelled.
- `metadata()` on an opened file is taken to succeed, so a probe succeeds exactly when its file opens.
- Utils.FsWrite: a write that fails part-way leaves the file unchanged in the model, while the program could leave it truncated.
- `utils::file_exists` has no caller in the modelled core.
