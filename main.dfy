/** The release pipeline (src/main.rs): detect the language, run its checks,
    refuse a dirty or outdated working tree, read the current version, ask
    for the next one, bump it in the project's files, commit, tag and push,
    then hand the changelog over for publishing.

    `Pipeline` states the run as a function of its inputs; the method
    `Release` performs it step by step, with early exits and the loop over
    the git commands, and is proved to produce the same result, file system
    and events. */
module Release {
  import opened Common
  import opened Text
  import opened Utils
  import Git
  import opened Languages
  import JsAdapter
  import KotlinAdapter
  import RustAdapter
  import SwiftAdapter

  /** Everything a run depends on besides the file system: what `git` and
      `bun` answer, the JSON and TOML libraries, the version the user types
      when shown the current one, and the version of a package without tags. */
  datatype Env = Env(
    git: GitRunner,
    bun: BunRunner,
    parseJson: string -> Option<JsAdapter.Json>,
    parseToml: string -> Option<RustAdapter.Toml>,
    printToml: RustAdapter.Toml -> string,
    prompt: string -> string,
    defaultVersion: string)

  const DIRTY: string := "Repository is dirty"
  const BEHIND: string := "Repository is not up to date with remote"

  function TagDeleteArgs(newVersion: string): seq<string> {
    ["tag", "-d", newVersion]
  }

  function CommitMessage(newVersion: string): string { "chore: release v" + newVersion }

  function TagMessage(newVersion: string): string { "Release v" + newVersion }

  function ReleaseName(newVersion: string): string { "v" + newVersion }

  /** The commands that record and publish the release, in order. */
  function Commands(newVersion: string, branch: string): (r: seq<seq<string>>)
    ensures |r| == 4
  {
    [ ["add", "-A"],
      ["commit", "-m", CommitMessage(newVersion)],
      ["tag", "-a", newVersion, "-m", TagMessage(newVersion)],
      ["push", "origin", branch, "--tags"] ]
  }

  /** The commands are add, commit, an annotated tag and push, in that
      order, and each of them records or publishes the release. */
  lemma CommandsRecordRelease(newVersion: string, branch: string)
    ensures var r := Commands(newVersion, branch);
      && ["add"] <= r[0] && ["commit"] <= r[1] && ["tag", "-a"] <= r[2] && ["push"] <= r[3]
      && forall k :: 0 <= k < |r| ==> IsReleaseCommand(Git(r[k]))
  {
  }

  /** The events of invoking each command in turn. */
  function Invocations(commands: seq<seq<string>>): (r: seq<Event>)
    ensures |r| == |commands| && forall k :: 0 <= k < |r| ==> r[k] == Git(commands[k])
  {
    seq(|commands|, k requires 0 <= k < |commands| => Git(commands[k]))
  }

  /** The commands run in order until one fails, whose standard error is
      then the error. When all succeed, each was invoked once, in order. */
  function RunCommands(git: GitRunner, commands: seq<seq<string>>): (r: Reply<()>)
    ensures r.result.Ok? <==> forall k :: 0 <= k < |commands| ==> git(commands[k]).success
    ensures r.result.Ok? ==> r.events == Invocations(commands)
    ensures forall e :: e in r.events ==> e.Git?
    decreases |commands|
  {
    if |commands| == 0 then Reply(Ok(()), [])
    else
      var output := git(commands[0]);
      if !output.success then Reply(Err(Failure(output.stderr)), [Git(commands[0])])
      else
        var rest := RunCommands(git, commands[1..]);
        InvocationsCons(commands);
        AllSucceedCons(git, commands);
        Reply(rest.result, [Git(commands[0])] + rest.events)
  }

  lemma InvocationsCons(commands: seq<seq<string>>)
    requires |commands| > 0
    ensures Invocations(commands) == [Git(commands[0])] + Invocations(commands[1..])
  {
  }

  lemma AllSucceedCons(git: GitRunner, commands: seq<seq<string>>)
    requires |commands| > 0
    ensures (forall k :: 0 <= k < |commands| ==> git(commands[k]).success)
      <==> git(commands[0]).success && forall k :: 0 <= k < |commands[1..]| ==> git(commands[1..][k]).success
  {
    assert forall k :: 1 <= k < |commands| ==> commands[k] == commands[1..][k - 1];
  }

  /** The first failing command ends the run with its standard error, and
      no command after it is invoked. */
  lemma {:induction false} RunCommandsStopsAtFirstFailure(git: GitRunner, commands: seq<seq<string>>, k: nat)
    requires k < |commands| && !git(commands[k]).success
    requires forall j :: 0 <= j < k ==> git(commands[j]).success
    ensures RunCommands(git, commands) == Reply(Err(Failure(git(commands[k]).stderr)), Invocations(commands[..k + 1]))
    decreases k
  {
    if k > 0 {
      RunCommandsStopsAtFirstFailure(git, commands[1..], k - 1);
      assert commands[1..][..k] == commands[1..k + 1];
      assert Invocations(commands[..k + 1]) == [Git(commands[0])] + Invocations(commands[1..k + 1]);
    }
  }

  /** The checks of the language: only JavaScript/TypeScript has any. */
  function Checks(env: Env, lang: Language): (r: Reply<()>)
    ensures !lang.JsTs? ==> r == Reply(Ok(()), [])
    ensures lang.JsTs? ==> r == JsAdapter.RunChecks(env.bun)
  {
    if lang.JsTs? then JsAdapter.RunChecks(env.bun) else Reply(Ok(()), [])
  }

  /** The git commands the repository gates run, in order: status, the
      branch name, fetch and the count of upstream commits on the branch. */
  function Probes(branch: string): (r: seq<Event>)
    ensures |r| == 4
  {
    [Git(Git.STATUS_ARGS), Git(Git.BRANCH_ARGS), Git(Git.FETCH_ARGS), Git(Git.RevListArgs(branch))]
  }

  /** The repository gates: a dirty working tree stops the run before the
      upstream is fetched, and a branch behind its upstream stops it too.
      The gates run a prefix of the probes, and all of them when they pass. */
  function Preflight(git: GitRunner): (r: Reply<()>)
    ensures Git.IsRepoDirty(git).result == Ok(true) ==>
      r == Reply(Err(Failure(DIRTY)), [Git(Git.STATUS_ARGS)])
    ensures (Git.IsRepoDirty(git).result == Ok(false)
      && Git.IsBehindUpstream(git, Git.BranchName(git).result.value).result == Ok(true)) ==>
      r == Reply(Err(Failure(BEHIND)), Probes(Git.BranchName(git).result.value))
    ensures r.result.Ok? <==> (Git.IsRepoDirty(git).result == Ok(false)
      && Git.IsBehindUpstream(git, Git.BranchName(git).result.value).result == Ok(false))
    ensures r.result.Ok? ==> r.events == Probes(Git.BranchName(git).result.value)
    ensures Git.IsRepoDirty(git).result.Err? ==>
      r == Reply(Err(Git.IsRepoDirty(git).result.error), [Git(Git.STATUS_ARGS)])
    ensures (Git.IsRepoDirty(git).result == Ok(false)
      && Git.IsBehindUpstream(git, Git.BranchName(git).result.value).result.Err?) ==>
      r == Reply(Err(Git.IsBehindUpstream(git, Git.BranchName(git).result.value).result.error),
        [Git(Git.STATUS_ARGS), Git(Git.BRANCH_ARGS)] + Git.IsBehindUpstream(git, Git.BranchName(git).result.value).events)
  {
    var dirty := Git.IsRepoDirty(git);
    if dirty.result.Err? then Reply(Err(dirty.result.error), [Git(Git.STATUS_ARGS)])
    else if dirty.result.value then Reply(Err(Failure(DIRTY)), [Git(Git.STATUS_ARGS)])
    else
      var behind := Git.IsBehindUpstream(git, Git.BranchName(git).result.value);
      var events := [Git(Git.STATUS_ARGS), Git(Git.BRANCH_ARGS)] + behind.events;
      if behind.result.Err? then Reply(Err(behind.result.error), events)
      else if behind.result.value then Reply(Err(Failure(BEHIND)), events)
      else Reply(Ok(()), events)
  }

  /** Whatever the outcome, the gates run only probes. */
  lemma PreflightOnlyProbes(git: GitRunner)
    ensures forall e :: e in Preflight(git).events ==> e in Probes(Git.BranchName(git).result.value)
  {
    var probes := Probes(Git.BranchName(git).result.value);
    var events := Preflight(git).events;
    if Git.IsRepoDirty(git).result != Ok(false) {
      assert events == probes[..1];
    } else if git(Git.FETCH_ARGS).success {
      assert events == probes;
    } else {
      assert events == probes[..3];
    }
  }

  /** None of the probes records or publishes anything. */
  lemma ProbesRecordNothing(branch: string)
    ensures forall e :: e in Probes(branch) ==> e.Git? && !IsReleaseCommand(e)
  {
  }

  /** The current version, read the way the language's adapter reads it. */
  function CurrentVersion(env: Env, fs: Fs, lang: Language): (r: Step<string>)
    ensures lang.Swift? ==> r.fs == fs && r.result.Ok? && r.events == [Git(Git.TAGS_ARGS)]
    ensures !lang.Swift? ==> FileEvents(r.events)
    ensures forall e :: e in r.events ==> !e.Write? && !IsReleaseCommand(e) && !e.Publish?
  {
    match lang
    case JsTs => JsAdapter.GetCurrentVersion(fs, env.parseJson)
    case Kotlin => KotlinAdapter.GetCurrentVersion(fs)
    case Rust => RustAdapter.GetCurrentVersion(fs, env.parseToml)
    case Swift =>
      var current := SwiftAdapter.GetCurrentVersion(env.git, env.defaultVersion);
      Step(current.result, fs, current.events)
  }

  /** The bump of the language's adapter; the pipeline bumps nothing for
      Swift. */
  function Bump(env: Env, fs: Fs, lang: Language, newVersion: string): (r: Step<()>)
    ensures lang.Swift? ==> r == Step(Ok(()), fs, [])
    ensures FileEvents(r.events)
  {
    match lang
    case JsTs => JsAdapter.BumpVersion(fs, env.parseJson, newVersion)
    case Kotlin => KotlinAdapter.BumpVersion(fs, newVersion)
    case Rust => RustAdapter.BumpVersion(fs, env.parseToml, env.printToml, newVersion)
    case Swift => Step(Ok(()), fs, [])
  }

  /** Whether an event is one of the commands that record or publish the
      release: `add`, `commit`, an annotated `tag` or `push`. */
  predicate IsReleaseCommand(e: Event) {
    e.Git? && |e.args| >= 1
    && (e.args[0] == "add" || e.args[0] == "commit" || e.args[0] == "push"
        || (e.args[0] == "tag" && |e.args| >= 2 && e.args[1] == "-a"))
  }

  /** The commands that record the release, after the ignored `tag -d`
      and the lookup of the branch to push. */
  function Record(git: GitRunner, newVersion: string): (r: Reply<()>)
    ensures var run := RunCommands(git, Commands(newVersion, Git.BranchName(git).result.value));
      r == Reply(run.result, [Git(TagDeleteArgs(newVersion)), Git(Git.BRANCH_ARGS)] + run.events)
    ensures forall e :: e in r.events ==> e.Git?
  {
    var run := RunCommands(git, Commands(newVersion, Git.BranchName(git).result.value));
    Reply(run.result, [Git(TagDeleteArgs(newVersion)), Git(Git.BRANCH_ARGS)] + run.events)
  }

  /** The outcome of `tag -d` plays no part: recording succeeds exactly
      when the four commands do. */
  lemma RecordIgnoresTagDelete(git: GitRunner, newVersion: string)
    ensures var commands := Commands(newVersion, Git.BranchName(git).result.value);
      Record(git, newVersion).result.Ok? <==> forall k :: 0 <= k < |commands| ==> git(commands[k]).success
  {
    var commands := Commands(newVersion, Git.BranchName(git).result.value);
    assert Record(git, newVersion).result == RunCommands(git, commands).result;
  }

  /** Everything after the bump: the release is recorded, then the
      changelog over `old..new` is handed over with the release name. The
      file system is left alone. */
  function Publishing(git: GitRunner, fs: Fs, oldVersion: string, newVersion: string): (r: Step<()>)
    ensures r.fs == fs
    ensures var recorded := Record(git, newVersion);
      && (recorded.result.Err? ==> r == Step(recorded.result, fs, recorded.events))
      && (recorded.result.Ok? ==> r == Step(Ok(()), fs, recorded.events +
            [Git(Git.LogArgs(oldVersion, newVersion)),
             Publish(Git.Changelog(git(Git.LogArgs(oldVersion, newVersion)).stdout), newVersion, ReleaseName(newVersion))]))
    ensures forall e :: e in r.events ==> e.Git? || e.Publish?
    ensures r.result.Ok? <==> exists e :: e in r.events && e.Publish?
  {
    var recorded := Record(git, newVersion);
    if recorded.result.Err? then
      OnlyGitPublishesNothing(recorded.events);
      Step(recorded.result, fs, recorded.events)
    else
      var log := Git.LogArgs(oldVersion, newVersion);
      var notes := Git.Changelog(git(log).stdout);
      var publish := Publish(notes, newVersion, ReleaseName(newVersion));
      PublishAfterGit(recorded.events, Git(log), publish);
      Step(Ok(()), fs, recorded.events + [Git(log), publish])
  }

  lemma OnlyGitPublishesNothing(events: seq<Event>)
    requires forall e :: e in events ==> e.Git?
    ensures !exists e :: e in events && e.Publish?
  {
  }

  lemma PublishAfterGit(events: seq<Event>, log: Event, publish: Event)
    requires forall e :: e in events ==> e.Git?
    requires log.Git? && publish.Publish?
    ensures forall e :: e in events + [log, publish] ==> e.Git? || e.Publish?
    ensures exists e :: e in events + [log, publish] && e.Publish?
  {
    var all := events + [log, publish];
    assert all[|all| - 1] == publish;
  }

  /** The end of a run from the current version on: the prompt for the
      next version, the bump, and the publishing. */
  function BumpAndPublish(env: Env, fs: Fs, lang: Language, oldVersion: string): (r: Step<()>)
    ensures |r.events| >= 1 && r.events[0] == Prompt(oldVersion)
    ensures r.result.Ok? ==> Bump(env, fs, lang, env.prompt(oldVersion)).result.Ok?
  {
    var newVersion := env.prompt(oldVersion);
    var bump := Bump(env, fs, lang, newVersion);
    if bump.result.Err? then Step(bump.result, bump.fs, [Prompt(oldVersion)] + bump.events)
    else
      var publishing := Publishing(env.git, bump.fs, oldVersion, newVersion);
      Step(publishing.result, publishing.fs, [Prompt(oldVersion)] + bump.events + publishing.events)
  }

  /** A run from the read of the current version on. */
  function FromCurrentVersion(env: Env, fs: Fs, lang: Language): (r: Step<()>)
    ensures r.result.Ok? ==> CurrentVersion(env, fs, lang).result.Ok?
  {
    var current := CurrentVersion(env, fs, lang);
    if current.result.Err? then Step(Err(current.result.error), current.fs, current.events)
    else
      var rest := BumpAndPublish(env, current.fs, lang, current.result.value);
      Step(rest.result, rest.fs, current.events + rest.events)
  }

  /** The run once the language is known: the checks, the gates, then the
      rest. */
  function ReleaseAs(env: Env, fs: Fs, lang: Language): (r: Step<()>)
    ensures r.result.Ok? ==> Checks(env, lang).result.Ok? && Preflight(env.git).result.Ok?
  {
    var checks := Checks(env, lang);
    if checks.result.Err? then Step(checks.result, fs, checks.events)
    else
      var preflight := Preflight(env.git);
      if preflight.result.Err? then Step(preflight.result, fs, checks.events + preflight.events)
      else
        var rest := FromCurrentVersion(env, fs, lang);
        Step(rest.result, rest.fs, checks.events + preflight.events + rest.events)
  }

  /** A whole run of the release tool. */
  function Pipeline(env: Env, fs: Fs): (r: Step<()>)
    ensures r.result.Ok? ==> DetectLanguage(fs).result.Ok?
    ensures DetectLanguage(fs).result.Err? ==> r == Step(Err(Failure(UNDETECTED)), fs, [])
  {
    var detect := DetectLanguage(fs);
    if detect.result.Err? then Step(Err(detect.result.error), detect.fs, detect.events)
    else
      var run := ReleaseAs(env, detect.fs, detect.result.value);
      Step(run.result, run.fs, detect.events + run.events)
  }

  /** The recording of the release in `main`: the ignored `tag -d`, the
      branch lookup and the loop over the commands, which stops at the
      first failure. */
  method RecordRelease(git: GitRunner, newVersion: string) returns (r: Reply<()>)
    ensures r == Record(git, newVersion)
  {
    // The outcome of deleting a stale tag is ignored.
    var events: seq<Event> := [Git(TagDeleteArgs(newVersion))];
    var branch := Git.BranchName(git);
    events := events + branch.events;
    var commands := Commands(newVersion, branch.result.value);
    for i := 0 to |commands|
      invariant events == [Git(TagDeleteArgs(newVersion)), Git(Git.BRANCH_ARGS)] + Invocations(commands[..i])
      invariant forall k :: 0 <= k < i ==> git(commands[k]).success
    {
      var output := git(commands[i]);
      events := events + [Git(commands[i])];
      InvocationsSnoc(commands, i);
      if !output.success {
        RunCommandsStopsAtFirstFailure(git, commands, i);
        return Reply(Err(Failure(output.stderr)), events);
      }
    }
    assert commands[..|commands|] == commands;
    RunCommandsAllSucceed(git, commands);
    return Reply(Ok(()), events);
  }

  lemma InvocationsSnoc(commands: seq<seq<string>>, i: nat)
    requires i < |commands|
    ensures Invocations(commands[..i + 1]) == Invocations(commands[..i]) + [Git(commands[i])]
  {
  }

  lemma RunCommandsAllSucceed(git: GitRunner, commands: seq<seq<string>>)
    requires forall k :: 0 <= k < |commands| ==> git(commands[k]).success
    ensures RunCommands(git, commands) == Reply(Ok(()), Invocations(commands))
  {
    assert RunCommands(git, commands).result.value == ();
  }

  /** The repository gates of `main`, step by step. */
  method CheckRepository(git: GitRunner) returns (r: Reply<()>)
    ensures r == Preflight(git)
  {
    var dirty := Git.IsRepoDirty(git);
    if dirty.result.Err? {
      return Reply(Err(dirty.result.error), dirty.events);
    }
    if dirty.result.value {
      return Reply(Err(Failure(DIRTY)), dirty.events);
    }
    var branch := Git.BranchName(git);
    var behind := Git.IsBehindUpstream(git, branch.result.value);
    var events := dirty.events + branch.events + behind.events;
    assert events == [Git(Git.STATUS_ARGS), Git(Git.BRANCH_ARGS)] + behind.events;
    if behind.result.Err? {
      return Reply(Err(behind.result.error), events);
    }
    if behind.result.value {
      return Reply(Err(Failure(BEHIND)), events);
    }
    return Reply(Ok(()), events);
  }

  /** The end of `main`, step by step: record the release, then hand the
      changelog over for publishing. */
  method PublishRelease(git: GitRunner, fs: Fs, oldVersion: string, newVersion: string) returns (r: Step<()>)
    ensures r == Publishing(git, fs, oldVersion, newVersion)
  {
    var recorded := RecordRelease(git, newVersion);
    if recorded.result.Err? {
      return Step(recorded.result, fs, recorded.events);
    }
    var notes, logEvents := Git.Diff(git, oldVersion, newVersion);
    var publish := Publish(notes, newVersion, ReleaseName(newVersion));
    assert logEvents + [publish] == [Git(Git.LogArgs(oldVersion, newVersion)), publish];
    return Step(Ok(()), fs, recorded.events + (logEvents + [publish]));
  }

  /** `main` once the language is known, step by step. */
  method ReleaseWith(env: Env, fs0: Fs, lang: Language) returns (r: Step<()>)
    ensures r == ReleaseAs(env, fs0, lang)
  {
    var fs := fs0;
    var events: seq<Event> := [];
    if lang.JsTs? {
      var checks := JsAdapter.RunChecks(env.bun);
      events := checks.events;
      if checks.result.Err? {
        return Step(checks.result, fs, events);
      }
    }

    var gates := CheckRepository(env.git);
    events := events + gates.events;
    if gates.result.Err? {
      return Step(gates.result, fs, events);
    }

    // The events from the read of the current version on.
    var current := CurrentVersion(env, fs, lang);
    fs := current.fs;
    if current.result.Err? {
      return Step(Err(current.result.error), fs, events + current.events);
    }
    var oldVersion := current.result.value;

    var newVersion := env.prompt(oldVersion);
    var rest := [Prompt(oldVersion)];

    var bump := Bump(env, fs, lang, newVersion);
    fs := bump.fs;
    rest := rest + bump.events;
    if bump.result.Err? {
      return Step(bump.result, fs, events + (current.events + rest));
    }

    var publishing := PublishRelease(env.git, fs, oldVersion, newVersion);
    rest := rest + publishing.events;
    return Step(publishing.result, publishing.fs, events + (current.events + rest));
  }

  /** `main`: detects the language, then releases. */
  method Release(env: Env, fs0: Fs) returns (r: Step<()>)
    ensures r == Pipeline(env, fs0)
  {
    var detect := DetectLanguage(fs0);
    if detect.result.Err? {
      return Step(Err(detect.result.error), detect.fs, detect.events);
    }
    var run := ReleaseWith(env, detect.fs, detect.result.value);
    return Step(run.result, run.fs, detect.events + run.events);
  }
}
