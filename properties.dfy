/** What a whole run of the release tool guarantees, stated over
    `Release.Pipeline`. */
module ReleaseProperties {
  import opened Common
  import opened Utils
  import Git
  import opened Languages
  import JsAdapter
  import opened Release

  /** Every file write of the trace comes before every command that
      records or publishes the release. */
  ghost predicate WritesPrecedeRelease(events: seq<Event>) {
    forall i, j :: 0 <= i < |events| && 0 <= j < |events| && events[i].Write? && IsReleaseCommand(events[j]) ==> i < j
  }

  /** Nothing in the trace records or publishes the release. */
  ghost predicate Quiet(events: seq<Event>) {
    forall e :: e in events ==> !IsReleaseCommand(e) && !e.Publish?
  }

  /** Nothing in the trace writes a file. */
  ghost predicate Unwritten(events: seq<Event>) {
    forall e :: e in events ==> !e.Write?
  }

  lemma QuietConcat(a: seq<Event>, b: seq<Event>)
    requires Quiet(a) && Quiet(b)
    ensures Quiet(a + b)
  {
  }

  lemma FileEventsQuiet(events: seq<Event>)
    requires FileEvents(events)
    ensures Quiet(events)
  {
  }

  /** A quiet trace followed by one without writes keeps writes first. */
  lemma Separated(a: seq<Event>, b: seq<Event>)
    requires Quiet(a)
    requires Unwritten(b)
    ensures WritesPrecedeRelease(a + b)
  {
  }

  /** The events of a run once the language is known, before anything is
      recorded: the checks, the gates, the read of the current version, the
      prompt and the bump. */
  lemma PreludeQuiet(env: Env, fs: Fs, lang: Language)
    ensures Quiet(Checks(env, lang).events)
    ensures Quiet(Preflight(env.git).events)
    ensures Quiet(CurrentVersion(env, fs, lang).events)
    ensures forall v :: Quiet(Bump(env, fs, lang, v).events)
  {
    PreflightOnlyProbes(env.git);
    ProbesRecordNothing(Git.BranchName(env.git).result.value);
    forall v ensures Quiet(Bump(env, fs, lang, v).events) {
      FileEventsQuiet(Bump(env, fs, lang, v).events);
    }
  }

  /** The trace splits into a part that records and publishes nothing,
      followed by a part that writes nothing. */
  ghost predicate SplitsAtRelease(events: seq<Event>) {
    exists pre: seq<Event>, post: seq<Event> :: events == pre + post && Quiet(pre) && Unwritten(post)
  }

  lemma SplitsWith(events: seq<Event>, pre: seq<Event>, post: seq<Event>)
    requires events == pre + post && Quiet(pre) && Unwritten(post)
    ensures SplitsAtRelease(events)
  {
  }

  lemma SplitsAfterQuiet(a: seq<Event>, b: seq<Event>)
    requires Quiet(a) && SplitsAtRelease(b)
    ensures SplitsAtRelease(a + b)
  {
    var pre, post :| b == pre + post && Quiet(pre) && Unwritten(post);
    assert a + b == (a + pre) + post;
  }

  lemma {:induction false} QuietSplits(a: seq<Event>)
    requires Quiet(a)
    ensures SplitsAtRelease(a)
  {
    assert a == a + [];
  }

  lemma BumpAndPublishSplits(env: Env, fs: Fs, lang: Language, oldVersion: string)
    ensures SplitsAtRelease(BumpAndPublish(env, fs, lang, oldVersion).events)
  {
    var newVersion := env.prompt(oldVersion);
    var bump := Bump(env, fs, lang, newVersion);
    FileEventsQuiet(bump.events);
    var pre := [Prompt(oldVersion)] + bump.events;
    QuietConcat([Prompt(oldVersion)], bump.events);
    if bump.result.Err? {
      QuietSplits(pre);
    } else {
      var publishing := Publishing(env.git, bump.fs, oldVersion, newVersion);
      SplitsWith(BumpAndPublish(env, fs, lang, oldVersion).events, pre, publishing.events);
    }
  }

  lemma FromCurrentVersionSplits(env: Env, fs: Fs, lang: Language)
    ensures SplitsAtRelease(FromCurrentVersion(env, fs, lang).events)
  {
    var current := CurrentVersion(env, fs, lang);
    if current.result.Err? {
      QuietSplits(current.events);
    } else {
      BumpAndPublishSplits(env, current.fs, lang, current.result.value);
      SplitsAfterQuiet(current.events, BumpAndPublish(env, current.fs, lang, current.result.value).events);
    }
  }

  lemma ReleaseAsSplits(env: Env, fs: Fs, lang: Language)
    ensures SplitsAtRelease(ReleaseAs(env, fs, lang).events)
  {
    var checks := Checks(env, lang);
    var preflight := Preflight(env.git);
    PreludeQuiet(env, fs, lang);
    QuietConcat(checks.events, preflight.events);
    if checks.result.Err? {
      QuietSplits(checks.events);
    } else if preflight.result.Err? {
      QuietSplits(checks.events + preflight.events);
    } else {
      FromCurrentVersionSplits(env, fs, lang);
      SplitsAfterQuiet(checks.events + preflight.events, FromCurrentVersion(env, fs, lang).events);
    }
  }

  /** The tool writes the project's files only before it adds, commits,
      tags, pushes or publishes anything: no write follows a command that
      records the release. */
  lemma WritesBeforeRelease(env: Env, fs: Fs)
    ensures WritesPrecedeRelease(Pipeline(env, fs).events)
  {
    var detect := DetectLanguage(fs);
    FileEventsQuiet(detect.events);
    if detect.result.Err? {
      QuietSplits(detect.events);
    } else {
      ReleaseAsSplits(env, detect.fs, detect.result.value);
      SplitsAfterQuiet(detect.events, ReleaseAs(env, detect.fs, detect.result.value).events);
    }
    var pre, post :| Pipeline(env, fs).events == pre + post && Quiet(pre) && Unwritten(post);
    Separated(pre, post);
  }

  /** Something in the trace hands a release over for publishing. */
  ghost predicate Publishes(events: seq<Event>) {
    exists e :: e in events && e.Publish?
  }

  lemma PublishesAfterQuiet(a: seq<Event>, b: seq<Event>)
    requires Quiet(a)
    ensures Publishes(a + b) <==> Publishes(b)
  {
    if Publishes(a + b) {
      var e :| e in a + b && e.Publish?;
      assert e in b;
    }
    if Publishes(b) {
      var e :| e in b && e.Publish?;
      assert e in a + b;
    }
  }

  lemma BumpAndPublishPublishes(env: Env, fs: Fs, lang: Language, oldVersion: string)
    ensures var run := BumpAndPublish(env, fs, lang, oldVersion);
      run.result.Ok? <==> Publishes(run.events)
  {
    var newVersion := env.prompt(oldVersion);
    var bump := Bump(env, fs, lang, newVersion);
    FileEventsQuiet(bump.events);
    QuietConcat([Prompt(oldVersion)], bump.events);
    var pre := [Prompt(oldVersion)] + bump.events;
    if bump.result.Err? {
      PublishesAfterQuiet(pre, []);
      assert pre + [] == pre;
    } else {
      PublishesAfterQuiet(pre, Publishing(env.git, bump.fs, oldVersion, newVersion).events);
    }
  }

  lemma FromCurrentVersionPublishes(env: Env, fs: Fs, lang: Language)
    ensures var run := FromCurrentVersion(env, fs, lang);
      run.result.Ok? <==> Publishes(run.events)
  {
    var current := CurrentVersion(env, fs, lang);
    if current.result.Err? {
      PublishesAfterQuiet(current.events, []);
      assert current.events + [] == current.events;
    } else {
      BumpAndPublishPublishes(env, current.fs, lang, current.result.value);
      PublishesAfterQuiet(current.events, BumpAndPublish(env, current.fs, lang, current.result.value).events);
    }
  }

  lemma ReleaseAsPublishes(env: Env, fs: Fs, lang: Language)
    ensures var run := ReleaseAs(env, fs, lang);
      run.result.Ok? <==> Publishes(run.events)
  {
    var checks := Checks(env, lang);
    var preflight := Preflight(env.git);
    PreludeQuiet(env, fs, lang);
    QuietConcat(checks.events, preflight.events);
    if checks.result.Err? {
      PublishesAfterQuiet(checks.events, []);
      assert checks.events + [] == checks.events;
    } else if preflight.result.Err? {
      PublishesAfterQuiet(checks.events + preflight.events, []);
      assert checks.events + preflight.events + [] == checks.events + preflight.events;
    } else {
      FromCurrentVersionPublishes(env, fs, lang);
      PublishesAfterQuiet(checks.events + preflight.events, FromCurrentVersion(env, fs, lang).events);
    }
  }

  /** A run succeeds exactly when it hands a release over for publishing:
      every failure stops the tool before that step. */
  lemma PublishIffSuccess(env: Env, fs: Fs)
    ensures Pipeline(env, fs).result.Ok? <==> Publishes(Pipeline(env, fs).events)
  {
    var detect := DetectLanguage(fs);
    FileEventsQuiet(detect.events);
    if detect.result.Err? {
      PublishesAfterQuiet(detect.events, []);
      assert detect.events + [] == detect.events;
    } else {
      ReleaseAsPublishes(env, detect.fs, detect.result.value);
      PublishesAfterQuiet(detect.events, ReleaseAs(env, detect.fs, detect.result.value).events);
    }
  }

  /** A dirty working tree stops the run right after `git status`: no
      fetch, no file read or written beyond detection, nothing recorded. */
  lemma DirtyAborts(env: Env, fs: Fs)
    requires DetectLanguage(fs).result.Ok?
    requires Checks(env, DetectLanguage(fs).result.value).result.Ok?
    requires env.git(Git.STATUS_ARGS).success && |env.git(Git.STATUS_ARGS).stdout| > 0
    ensures var detect := DetectLanguage(fs);
      Pipeline(env, fs) == Step(Err(Failure(DIRTY)), detect.fs,
        detect.events + (Checks(env, detect.result.value).events + [Git(Git.STATUS_ARGS)]))
  {
    var detect := DetectLanguage(fs);
    var checks := Checks(env, detect.result.value);
    assert Git.IsRepoDirty(env.git).result == Ok(true);
    assert Preflight(env.git) == Reply(Err(Failure(DIRTY)), [Git(Git.STATUS_ARGS)]);
    assert ReleaseAs(env, detect.fs, detect.result.value)
      == Step(Err(Failure(DIRTY)), detect.fs, checks.events + [Git(Git.STATUS_ARGS)]);
  }

  /** A branch behind its upstream stops the run after the probes, before
      the current version is read. */
  lemma BehindAborts(env: Env, fs: Fs)
    requires DetectLanguage(fs).result.Ok?
    requires Checks(env, DetectLanguage(fs).result.value).result.Ok?
    requires env.git(Git.STATUS_ARGS).success && |env.git(Git.STATUS_ARGS).stdout| == 0
    requires var branch := Git.BranchName(env.git).result.value;
      env.git(Git.FETCH_ARGS).success && env.git(Git.RevListArgs(branch)).success
      && Git.BehindCount(env.git(Git.RevListArgs(branch)).stdout) > 0
    ensures var detect := DetectLanguage(fs);
      Pipeline(env, fs) == Step(Err(Failure(BEHIND)), detect.fs,
        detect.events + (Checks(env, detect.result.value).events + Probes(Git.BranchName(env.git).result.value)))
  {
    var detect := DetectLanguage(fs);
    var checks := Checks(env, detect.result.value);
    var probes := Probes(Git.BranchName(env.git).result.value);
    assert Git.IsRepoDirty(env.git).result == Ok(false);
    assert Git.IsBehindUpstream(env.git, Git.BranchName(env.git).result.value).result == Ok(true);
    assert Preflight(env.git) == Reply(Err(Failure(BEHIND)), probes);
    assert ReleaseAs(env, detect.fs, detect.result.value) == Step(Err(Failure(BEHIND)), detect.fs, checks.events + probes);
  }

  /** `events` ends with `tail`. */
  ghost predicate EndsWith(events: seq<Event>, tail: seq<Event>) {
    |events| >= |tail| && events[|events| - |tail|..] == tail
  }

  lemma EndsWithAfter(a: seq<Event>, b: seq<Event>, tail: seq<Event>)
    requires EndsWith(b, tail)
    ensures EndsWith(a + b, tail)
  {
    assert (a + b)[|a + b| - |tail|..] == b[|b| - |tail|..];
  }

  /** How a successful run ends: the four recording commands, the `git log`
      over `old..new` and the hand-over of its changelog as release `v<new>`. */
  ghost function ReleaseTail(git: GitRunner, oldVersion: string, newVersion: string): seq<Event> {
    Invocations(Commands(newVersion, Git.BranchName(git).result.value))
    + [Git(Git.LogArgs(oldVersion, newVersion)),
       Publish(Git.Changelog(git(Git.LogArgs(oldVersion, newVersion)).stdout), newVersion, ReleaseName(newVersion))]
  }

  lemma BumpAndPublishSucceeded(env: Env, fs: Fs, lang: Language, oldVersion: string)
    requires BumpAndPublish(env, fs, lang, oldVersion).result.Ok?
    ensures var newVersion := env.prompt(oldVersion);
      var bump := Bump(env, fs, lang, newVersion);
      var commands := Commands(newVersion, Git.BranchName(env.git).result.value);
      && bump.result.Ok?
      && BumpAndPublish(env, fs, lang, oldVersion).fs == bump.fs
      && (forall k :: 0 <= k < |commands| ==> env.git(commands[k]).success)
      && EndsWith(BumpAndPublish(env, fs, lang, oldVersion).events, ReleaseTail(env.git, oldVersion, newVersion))
  {
    var newVersion := env.prompt(oldVersion);
    var bump := Bump(env, fs, lang, newVersion);
    var publishing := Publishing(env.git, bump.fs, oldVersion, newVersion);
    var tail := ReleaseTail(env.git, oldVersion, newVersion);
    assert publishing.events == [Git(TagDeleteArgs(newVersion)), Git(Git.BRANCH_ARGS)] + tail;
    EndsWithAfter([Git(TagDeleteArgs(newVersion)), Git(Git.BRANCH_ARGS)], tail, tail);
    EndsWithAfter([Prompt(oldVersion)] + bump.events, publishing.events, tail);
  }

  lemma FromCurrentVersionSucceeded(env: Env, fs: Fs, lang: Language)
    requires FromCurrentVersion(env, fs, lang).result.Ok?
    ensures CurrentVersion(env, fs, lang).result.Ok?
    ensures var current := CurrentVersion(env, fs, lang);
      var oldVersion := current.result.value;
      var newVersion := env.prompt(oldVersion);
      var bump := Bump(env, current.fs, lang, newVersion);
      var commands := Commands(newVersion, Git.BranchName(env.git).result.value);
      && bump.result.Ok?
      && FromCurrentVersion(env, fs, lang).fs == bump.fs
      && (forall k :: 0 <= k < |commands| ==> env.git(commands[k]).success)
      && EndsWith(FromCurrentVersion(env, fs, lang).events, ReleaseTail(env.git, oldVersion, newVersion))
  {
    var current := CurrentVersion(env, fs, lang);
    var oldVersion := current.result.value;
    var rest := BumpAndPublish(env, current.fs, lang, oldVersion);
    BumpAndPublishSucceeded(env, current.fs, lang, oldVersion);
    EndsWithAfter(current.events, rest.events, ReleaseTail(env.git, oldVersion, env.prompt(oldVersion)));
  }

  lemma ReleaseAsSucceeded(env: Env, fs: Fs, lang: Language)
    requires ReleaseAs(env, fs, lang).result.Ok?
    ensures CurrentVersion(env, fs, lang).result.Ok?
    ensures var current := CurrentVersion(env, fs, lang);
      var oldVersion := current.result.value;
      var newVersion := env.prompt(oldVersion);
      var bump := Bump(env, current.fs, lang, newVersion);
      var commands := Commands(newVersion, Git.BranchName(env.git).result.value);
      && bump.result.Ok?
      && ReleaseAs(env, fs, lang).fs == bump.fs
      && (forall k :: 0 <= k < |commands| ==> env.git(commands[k]).success)
      && EndsWith(ReleaseAs(env, fs, lang).events, ReleaseTail(env.git, oldVersion, newVersion))
  {
    var checks := Checks(env, lang);
    var preflight := Preflight(env.git);
    var rest := FromCurrentVersion(env, fs, lang);
    assert ReleaseAs(env, fs, lang) == Step(rest.result, rest.fs, checks.events + preflight.events + rest.events);
    FromCurrentVersionSucceeded(env, fs, lang);
    var oldVersion := CurrentVersion(env, fs, lang).result.value;
    EndsWithAfter(checks.events + preflight.events, rest.events, ReleaseTail(env.git, oldVersion, env.prompt(oldVersion)));
  }

  /** A successful run: the language was detected, the current version
      read, the user's next version bumped in the files (which are left as
      the bump wrote them), all four recording commands succeeded, and the
      run ends with them, the `git log` over `old..new` and the hand-over
      of its changelog under the name `v<new>`. */
  lemma SuccessfulRelease(env: Env, fs: Fs)
    requires Pipeline(env, fs).result.Ok?
    ensures DetectLanguage(fs).result.Ok?
    ensures CurrentVersion(env, DetectLanguage(fs).fs, DetectLanguage(fs).result.value).result.Ok?
    ensures var detect := DetectLanguage(fs);
      var lang := detect.result.value;
      var current := CurrentVersion(env, detect.fs, lang);
      var oldVersion := current.result.value;
      var newVersion := env.prompt(oldVersion);
      var bump := Bump(env, current.fs, lang, newVersion);
      var commands := Commands(newVersion, Git.BranchName(env.git).result.value);
      && bump.result.Ok?
      && Pipeline(env, fs).fs == bump.fs
      && (forall k :: 0 <= k < |commands| ==> env.git(commands[k]).success)
      && EndsWith(Pipeline(env, fs).events, ReleaseTail(env.git, oldVersion, newVersion))
  {
    var detect := DetectLanguage(fs);
    var lang := detect.result.value;
    ReleaseAsSucceeded(env, detect.fs, lang);
    var oldVersion := CurrentVersion(env, detect.fs, lang).result.value;
    var tail := ReleaseTail(env.git, oldVersion, env.prompt(oldVersion));
    EndsWithAfter(detect.events, ReleaseAs(env, detect.fs, lang).events, tail);
  }

  /** No event of the trace touches a file. */
  ghost predicate NoFileAccess(events: seq<Event>) {
    forall e :: e in events ==> !e.Create? && !e.Read? && !e.Write?
  }

  lemma NoFileAccessConcat(a: seq<Event>, b: seq<Event>)
    requires NoFileAccess(a) && NoFileAccess(b)
    ensures NoFileAccess(a + b)
  {
  }

  lemma PublishingTouchesNoFile(git: GitRunner, fs: Fs, oldVersion: string, newVersion: string)
    ensures NoFileAccess(Publishing(git, fs, oldVersion, newVersion).events)
  {
    var events := Publishing(git, fs, oldVersion, newVersion).events;
    forall e | e in events ensures !e.Create? && !e.Read? && !e.Write? {
      assert e.Git? || e.Publish?;
    }
  }

  lemma SwiftBumpAndPublish(env: Env, fs: Fs, oldVersion: string)
    ensures BumpAndPublish(env, fs, Swift, oldVersion).fs == fs
    ensures NoFileAccess(BumpAndPublish(env, fs, Swift, oldVersion).events)
  {
    var newVersion := env.prompt(oldVersion);
    var publishing := Publishing(env.git, fs, oldVersion, newVersion);
    var run := BumpAndPublish(env, fs, Swift, oldVersion);
    assert Bump(env, fs, Swift, newVersion) == Step(Ok(()), fs, []);
    assert run == Step(publishing.result, fs, [Prompt(oldVersion)] + [] + publishing.events);
    PublishingTouchesNoFile(env.git, fs, oldVersion, newVersion);
    NoFileAccessConcat([Prompt(oldVersion)], publishing.events);
  }

  lemma SwiftFromCurrentVersion(env: Env, fs: Fs)
    ensures FromCurrentVersion(env, fs, Swift).fs == fs
    ensures NoFileAccess(FromCurrentVersion(env, fs, Swift).events)
  {
    var current := CurrentVersion(env, fs, Swift);
    SwiftBumpAndPublish(env, fs, current.result.value);
    NoFileAccessConcat(current.events, BumpAndPublish(env, fs, Swift, current.result.value).events);
  }

  lemma PreflightTouchesNoFile(git: GitRunner)
    ensures NoFileAccess(Preflight(git).events)
  {
    PreflightOnlyProbes(git);
    ProbesRecordNothing(Git.BranchName(git).result.value);
  }

  /** A Swift package is released from its tags alone: the run reads,
      creates and writes no file and leaves the file system as it is. */
  lemma SwiftTouchesNoFile(env: Env, fs: Fs)
    ensures ReleaseAs(env, fs, Swift).fs == fs
    ensures NoFileAccess(ReleaseAs(env, fs, Swift).events)
  {
    var preflight := Preflight(env.git);
    var rest := FromCurrentVersion(env, fs, Swift);
    assert Checks(env, Swift) == Reply(Ok(()), []);
    if preflight.result.Err? {
      assert ReleaseAs(env, fs, Swift) == Step(preflight.result, fs, [] + preflight.events);
    } else {
      assert ReleaseAs(env, fs, Swift) == Step(rest.result, rest.fs, [] + preflight.events + rest.events);
    }
    PreflightTouchesNoFile(env.git);
    SwiftFromCurrentVersion(env, fs);
    NoFileAccessConcat(preflight.events, rest.events);
    assert [] + preflight.events == preflight.events;
    assert [] + preflight.events + rest.events == preflight.events + rest.events;
  }
}
