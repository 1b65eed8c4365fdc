/** The repository queries of the release tool (src/git.rs). `git` itself is
    a parameter: each function is given what `git` prints and how it exits
    for each argument vector, and reports which invocations it made. */
module Git {
  import opened Common
  import opened Text

  const STATUS_ARGS: seq<string> := ["status", "--porcelain"]
  const FETCH_ARGS: seq<string> := ["fetch"]
  const BRANCH_ARGS: seq<string> := ["rev-parse", "--abbrev-ref", "HEAD"]
  const ORIGIN_ARGS: seq<string> := ["remote", "get-url", "origin"]
  const TAGS_ARGS: seq<string> := ["tag", "--sort=-v:refname"]

  function RevListArgs(branch: string): seq<string> {
    ["rev-list", "--count", "HEAD..origin/" + branch]
  }

  function LogArgs(oldVersion: string, newVersion: string): seq<string> {
    ["log", "--oneline", "--pretty=format:%s (%h)", oldVersion + ".." + newVersion]
  }

  /** The bullets of the changelog of a log listed newest first: every line
      but the first (the newest commit, which is the release commit), from
      the oldest on, each prefixed by `* `. */
  function ChangelogEntries(log: string): (r: seq<string>)
    ensures var lines := Lines(log);
      |r| == (if |lines| == 0 then 0 else |lines| - 1)
      && forall k :: 0 <= k < |r| ==> r[k] == "* " + lines[|lines| - 1 - k]
  {
    var lines := Lines(log);
    if |lines| == 0 then []
    else seq(|lines| - 1, k requires 0 <= k < |lines| - 1 => "* " + lines[|lines| - 1 - k])
  }

  /** The release notes: the changelog bullets, one per line. */
  function Changelog(log: string): string {
    Join(ChangelogEntries(log), "\n")
  }

  /** An empty log or a log of one commit gives empty release notes. */
  lemma ChangelogOfShortLog(log: string)
    requires |Lines(log)| <= 1
    ensures Changelog(log) == ""
  {
  }

  /** The release notes split back at newlines into exactly the bullets:
      every log line but the newest, oldest first, each prefixed by `* `,
      with no trailing newline. */
  lemma {:induction false} ChangelogLines(log: string)
    requires |Lines(log)| >= 2
    ensures var lines := Lines(log); var notes := Split(Changelog(log), '\n');
      |notes| == |lines| - 1
      && forall k :: 0 <= k < |notes| ==> notes[k] == "* " + lines[|lines| - 1 - k]
  {
    var lines := Lines(log);
    var entries := ChangelogEntries(log);
    forall k | 0 <= k < |entries| ensures '\n' !in entries[k] {
      assert entries[k] == "* " + lines[|lines| - 1 - k];
      assert '\n' !in lines[|lines| - 1 - k];
    }
    SplitJoin(entries, '\n');
  }

  /** `Vec::reverse`, in place. */
  method Reverse(a: array<string>)
    modifies a
    ensures forall k :: 0 <= k < a.Length ==> a[k] == old(a[a.Length - 1 - k])
  {
    var n := a.Length;
    var i := 0;
    while i < n / 2
      invariant 0 <= i <= n / 2
      invariant forall k :: 0 <= k < i ==> a[k] == old(a[n - 1 - k]) && a[n - 1 - k] == old(a[k])
      invariant forall k :: i <= k < n - i ==> a[k] == old(a[k])
    {
      a[i], a[n - 1 - i] := a[n - 1 - i], a[i];
      i := i + 1;
    }
  }

  /** `diff`: runs `git log` over `old..new`, collects its lines, reverses
      them, pops the last one and joins the rest as bullets. */
  method Diff(git: GitRunner, oldVersion: string, newVersion: string) returns (body: string, events: seq<Event>)
    ensures events == [Git(LogArgs(oldVersion, newVersion))]
    ensures body == Changelog(git(LogArgs(oldVersion, newVersion)).stdout)
  {
    var args := LogArgs(oldVersion, newVersion);
    events := [Git(args)];
    var log := git(args).stdout;
    var lines := Lines(log);
    var v := new string[|lines|](k requires 0 <= k < |lines| => lines[k]);
    Reverse(v);
    var len := v.Length;
    if len > 0 {
      len := len - 1;
    }
    var bullets := seq(len, k requires 0 <= k < len reads v => "* " + v[k]);
    assert bullets == ChangelogEntries(log);
    body := Join(bullets, "\n");
  }

  /** `is_repo_dirty`: fails when `git status` fails; otherwise dirty
      exactly when it printed anything. */
  function IsRepoDirty(git: GitRunner): (r: Reply<bool>)
    ensures r.events == [Git(STATUS_ARGS)]
    ensures r.result.Err? <==> !git(STATUS_ARGS).success
    ensures r.result.Ok? ==> (r.result.value <==> |git(STATUS_ARGS).stdout| > 0)
  {
    var status := git(STATUS_ARGS);
    if !status.success then Reply(Err(Failure("failed to check repository status")), [Git(STATUS_ARGS)])
    else Reply(Ok(|status.stdout| > 0), [Git(STATUS_ARGS)])
  }

  /** The number of commits `rev-list --count` reported; output that is not
      a 32-bit decimal count counts as zero. */
  function BehindCount(stdout: string): (r: nat)
    ensures r <= U32_MAX
  {
    match ParseU32(Trim(stdout))
    case Some(n) => n
    case None => 0
  }

  /** The branch is behind exactly when the trimmed output parses as a
      positive 32-bit count. */
  lemma BehindIffPositiveCount(stdout: string)
    ensures BehindCount(stdout) > 0 <==> exists n :: ParseU32(Trim(stdout)) == Some(n) && n > 0
  {
    if BehindCount(stdout) > 0 {
      var n := ParseU32(Trim(stdout)).value;
      assert ParseU32(Trim(stdout)) == Some(n) && n > 0;
    }
  }

  /** `is_behind_upstream`: fetches, then counts the upstream commits that
      are missing locally. A failed fetch stops before `rev-list`. */
  function IsBehindUpstream(git: GitRunner, branch: string): (r: Reply<bool>)
    ensures !git(FETCH_ARGS).success ==>
      r == Reply(Err(Failure("failed to fetch from remote")), [Git(FETCH_ARGS)])
    ensures git(FETCH_ARGS).success ==> r.events == [Git(FETCH_ARGS), Git(RevListArgs(branch))]
    ensures git(FETCH_ARGS).success && !git(RevListArgs(branch)).success ==>
      r.result == Err(Failure("failed to check if branch is behind remote"))
    ensures r.result.Ok? <==> git(FETCH_ARGS).success && git(RevListArgs(branch)).success
    ensures r.result.Ok? ==> r.result.value == (BehindCount(git(RevListArgs(branch)).stdout) > 0)
  {
    var fetch := git(FETCH_ARGS);
    if !fetch.success then
      Reply(Err(Failure("failed to fetch from remote")), [Git(FETCH_ARGS)])
    else
      var args := RevListArgs(branch);
      var output := git(args);
      if !output.success then
        Reply(Err(Failure("failed to check if branch is behind remote")), [Git(FETCH_ARGS), Git(args)])
      else
        Reply(Ok(BehindCount(output.stdout) > 0), [Git(FETCH_ARGS), Git(args)])
  }

  /** A count printed by `git rev-list --count` (decimal digits and a
      newline) is read back exactly when it fits in 32 bits; a larger one
      reads as zero. */
  lemma {:induction false} BehindCountOfPrintedCount(n: nat)
    ensures BehindCount(DecimalString(n) + "\n") == if n <= U32_MAX then n else 0
  {
    var d := DecimalString(n);
    TrimDigitsLine(d);
    ParseDecimalString(n);
    ParseDigits(d);
  }

  /** Trimming a line of digits leaves the digits. */
  lemma TrimDigitsLine(d: string)
    requires |d| >= 1 && forall k :: 0 <= k < |d| ==> IsDigit(d[k])
    ensures Trim(d + "\n") == d
  {
    var s := d + "\n";
    assert s[0] == d[0];
    assert TrimStart(s) == s;
    assert s[..|s| - 1] == d;
    assert TrimEnd(d) == d;
  }

  /** A string of digits parses to its value when that fits in 32 bits. */
  lemma ParseDigits(d: string)
    requires |d| >= 1 && forall k :: 0 <= k < |d| ==> IsDigit(d[k])
    ensures ParseU32(d) == if DecimalValue(d) <= U32_MAX then Some(DecimalValue(d)) else None
  {
    assert d[0] != '+';
  }

  /** `tags`: one tag per line of `git tag --sort=-v:refname`, in its order
      (latest first). */
  function Tags(git: GitRunner): (r: Reply<seq<string>>)
    ensures r.events == [Git(TAGS_ARGS)]
    ensures r.result.Ok?
    ensures forall k :: 0 <= k < |r.result.value| ==> '\n' !in r.result.value[k]
    ensures |r.result.value| == 0 <==> |git(TAGS_ARGS).stdout| == 0
  {
    Reply(Ok(Lines(git(TAGS_ARGS).stdout)), [Git(TAGS_ARGS)])
  }

  /** The tags are the lines `git tag` printed, in the order it printed
      them: for output made of newline-ended tag names, the first tag is the
      first line. */
  lemma TagsInOutputOrder(git: GitRunner, ts: seq<string>)
    requires |ts| >= 1
    requires forall k :: 0 <= k < |ts| ==> '\n' !in ts[k] && (|ts[k]| == 0 || ts[k][|ts[k]| - 1] != '\r')
    requires git(TAGS_ARGS).stdout == Join(ts, "\n") + "\n"
    ensures Tags(git).result.value == ts
  {
    LinesOfTerminated(ts);
  }

  /** `branch_name`: the output of `rev-parse --abbrev-ref HEAD` without its
      surrounding whitespace. */
  function BranchName(git: GitRunner): (r: Reply<string>)
    ensures r.events == [Git(BRANCH_ARGS)]
    ensures r.result.Ok?
  {
    Reply(Ok(Trim(git(BRANCH_ARGS).stdout)), [Git(BRANCH_ARGS)])
  }

  /** The branch name is the output with its leading and trailing
      whitespace removed, and nothing else. */
  lemma BranchNameTrimmed(git: GitRunner)
    ensures TrimmedOf(BranchName(git).result.value, git(BRANCH_ARGS).stdout)
  {
    TrimIsTrimmedOf(git(BRANCH_ARGS).stdout);
  }

  /** `origin_url`: the output of `remote get-url origin` without its
      surrounding whitespace. */
  function OriginUrl(git: GitRunner): (r: Reply<string>)
    ensures r.events == [Git(ORIGIN_ARGS)]
    ensures r.result.Ok?
  {
    Reply(Ok(Trim(git(ORIGIN_ARGS).stdout)), [Git(ORIGIN_ARGS)])
  }

  /** The remote URL is the output with its leading and trailing
      whitespace removed, and nothing else. */
  lemma OriginUrlTrimmed(git: GitRunner)
    ensures TrimmedOf(OriginUrl(git).result.value, git(ORIGIN_ARGS).stdout)
  {
    TrimIsTrimmedOf(git(ORIGIN_ARGS).stdout);
  }
}
