/** `dev-release.ts`: tag the latest commit of `package-a` as a dev release
    and push the tag, unless the remote already has it. */
module DevRelease {
  import opened Common

  const PackageName: string := "package-a"

  /** The result of one command: whether it failed, and what it printed. */
  datatype Command = Command(failed: bool, stdout: string)

  /** How each external step of one run turns out. `remote` is what the
      remote lookup of the current branch gives (`None` for null). */
  datatype DevScript = DevScript(
    token: Option<string>,
    head: Command,       // git rev-parse HEAD
    version: Command,    // npm pkg get version, in the package directory
    remote: Option<string>,
    lsRemote: Command,   // git ls-remote <remote> refs/tags/<tag>
    tagList: Command,    // git tag -l <tag>
    tagCreate: Command,  // git tag -a <tag> -m "dev-release"
    push: Command)       // git push <remote> tag <tag>

  datatype DevAction =
    | RevParse
    | GetVersion
    | LsRemote(remote: string, tag: string)
    | ListTag(tag: string)
    | CreateTag(tag: string)
    | PushTag(remote: string, tag: string)

  /** `GITHUB_TOKEN` is set and not empty. */
  predicate HasToken(s: DevScript) {
    s.token.Some? && s.token.value != ""
  }

  // ---------------------------------------------------------------------
  // The tag name

  /** `replaceAll('"', '')`. */
  function RemoveQuotes(s: string): (r: string)
    ensures |r| <= |s|
    ensures '"' !in r
  {
    if s == [] then []
    else (if s[0] == '"' then [] else [s[0]]) + RemoveQuotes(s[1..])
  }

  /** Removing quotes keeps every other character, in order: it commutes
      with concatenation and leaves a text without quotes alone. */
  lemma {:induction false} RemoveQuotesAppend(a: string, b: string)
    ensures RemoveQuotes(a + b) == RemoveQuotes(a) + RemoveQuotes(b)
  {
    if a != [] {
      assert (a + b)[0] == a[0];
      assert (a + b)[1..] == a[1..] + b;
      RemoveQuotesAppend(a[1..], b);
    } else {
      assert a + b == b;
    }
  }

  lemma {:induction false} RemoveQuotesKeeps(s: string)
    requires '"' !in s
    ensures RemoveQuotes(s) == s
  {
    if s != [] {
      assert '"' !in s[1..];
      RemoveQuotesKeeps(s[1..]);
    }
  }

  /** Removing quotes twice is removing them once. */
  lemma RemoveQuotesIdempotent(s: string)
    ensures RemoveQuotes(RemoveQuotes(s)) == RemoveQuotes(s)
  {
    RemoveQuotesKeeps(RemoveQuotes(s));
  }

  /** npm prints the version as a JSON string; the quotes around it go. */
  lemma QuotedVersion(v: string)
    requires '"' !in v
    ensures RemoveQuotes("\"" + v + "\"") == v
  {
    RemoveQuotesAppend("\"" + v, "\"");
    RemoveQuotesAppend("\"", v);
    RemoveQuotesKeeps(v);
  }

  /** The tag of the dev release: the package name, `@`, the version
      without its quotes, `-dev.` and the commit hash. */
  function DevTag(version: string, head: string): (tag: string)
    ensures |tag| >= |PackageName| + 6 + |head|
    ensures tag[..|PackageName| + 1] == PackageName + "@" && tag[|tag| - |head|..] == head
    ensures '"' !in tag[|PackageName| + 1..|tag| - |head| - 5]
  {
    PackageName + "@" + RemoveQuotes(version) + "-dev." + head
  }

  // ---------------------------------------------------------------------
  // Runs

  /** The remote the script talks to: the one configured for the current
      branch, or "origin" when there is none. */
  function RemoteOf(s: DevScript): string {
    s.remote.GetOr("origin")
  }

  function TagOf(s: DevScript): string {
    DevTag(s.version.stdout, s.head.stdout)
  }

  /** The actions the script performs when no command fails: it stops
      after `ls-remote` when the remote has the tag, and creates the tag
      only when `git tag -l` prints nothing. */
  function Planned(s: DevScript): seq<DevAction> {
    var tag := TagOf(s);
    var remote := RemoteOf(s);
    [RevParse, GetVersion, LsRemote(remote, tag)]
    + (if s.lsRemote.stdout != "" then []
       else [ListTag(tag)] + (if s.tagList.stdout == "" then [CreateTag(tag)] else []) + [PushTag(remote, tag)])
  }

  /** Whether the command behind an action succeeds. */
  predicate Succeeds(s: DevScript, a: DevAction) {
    match a
    case RevParse => !s.head.failed
    case GetVersion => !s.version.failed
    case LsRemote(_, _) => !s.lsRemote.failed
    case ListTag(_) => !s.tagList.failed
    case CreateTag(_) => !s.tagCreate.failed
    case PushTag(_, _) => !s.push.failed
  }

  predicate AllSucceed(s: DevScript, acts: seq<DevAction>) {
    forall j :: 0 <= j < |acts| ==> Succeeds(s, acts[j])
  }

  /** How many actions at the front of `acts` succeed. */
  function Succeeding(s: DevScript, acts: seq<DevAction>): (n: nat)
    ensures n <= |acts|
  {
    if acts == [] || !Succeeds(s, acts[0]) then 0 else 1 + Succeeding(s, acts[1..])
  }

  datatype DevOutcome = DevOutcome(exitCode: nat, trace: seq<DevAction>)

  /** The run for a script: a missing token exits with 1 before any
      command; a failing command ends the run with 1 (the rejection is not
      handled); otherwise every planned action runs and the exit code is 0. */
  function DevRun(s: DevScript): DevOutcome {
    if !HasToken(s) then DevOutcome(1, [])
    else
      var planned := Planned(s);
      var n := Succeeding(s, planned);
      if n < |planned| then DevOutcome(1, planned[..n + 1]) else DevOutcome(0, planned)
  }

  lemma {:induction false} SucceedingIs(s: DevScript, acts: seq<DevAction>, k: nat)
    requires k <= |acts| && AllSucceed(s, acts[..k])
    requires k < |acts| ==> !Succeeds(s, acts[k])
    ensures Succeeding(s, acts) == k
  {
    if k > 0 {
      assert Succeeds(s, acts[..k][0]);
      assert acts[1..][..k - 1] == acts[..k][1..];
      SucceedingIs(s, acts[1..], k - 1);
    }
  }

  lemma {:induction false} SucceedingSpec(s: DevScript, acts: seq<DevAction>)
    ensures AllSucceed(s, acts[..Succeeding(s, acts)])
    ensures Succeeding(s, acts) < |acts| ==> !Succeeds(s, acts[Succeeding(s, acts)])
  {
    if acts != [] && Succeeds(s, acts[0]) {
      SucceedingSpec(s, acts[1..]);
      var n := Succeeding(s, acts);
      assert acts[..n] == [acts[0]] + acts[1..][..n - 1];
    }
  }

  /** A command that fails after all earlier ones succeeded ends the run. */
  lemma FailsAt(s: DevScript, done: seq<DevAction>, a: DevAction)
    requires HasToken(s)
    requires |done| < |Planned(s)| && done + [a] == Planned(s)[..|done| + 1]
    requires AllSucceed(s, done) && !Succeeds(s, a)
    ensures DevRun(s) == DevOutcome(1, done + [a])
  {
    var planned := Planned(s);
    assert planned[..|done| + 1][..|done|] == planned[..|done|];
    assert done == (done + [a])[..|done|];
    SucceedingIs(s, planned, |done|);
  }

  /** Every planned action ran and succeeded. */
  lemma Finished(s: DevScript, done: seq<DevAction>)
    requires HasToken(s) && done == Planned(s) && AllSucceed(s, done)
    ensures DevRun(s) == DevOutcome(0, done)
  {
    assert done[..|done|] == done;
    SucceedingIs(s, done, |done|);
  }

  // ---------------------------------------------------------------------
  // The script

  /** `dev-release.ts` over a script of outcomes. */
  method Release(s: DevScript) returns (exitCode: nat, trace: seq<DevAction>)
    ensures DevOutcome(exitCode, trace) == DevRun(s)
  {
    if !HasToken(s) {
      return 1, [];
    }
    if s.head.failed {
      FailsAt(s, [], RevParse);
      return 1, [RevParse];
    }
    var mostRecentCommit := s.head.stdout;
    if s.version.failed {
      FailsAt(s, [RevParse], GetVersion);
      return 1, [RevParse, GetVersion];
    }
    var tagToCreate := PackageName + "@" + RemoveQuotes(s.version.stdout) + "-dev." + mostRecentCommit;
    var remote := s.remote.GetOr("origin");
    trace := [RevParse, GetVersion, LsRemote(remote, tagToCreate)];
    if s.lsRemote.failed {
      FailsAt(s, [RevParse, GetVersion], LsRemote(remote, tagToCreate));
      return 1, trace;
    }
    if s.lsRemote.stdout != "" {
      Finished(s, trace);
      return 0, trace;
    }
    ghost var done := trace;
    trace := trace + [ListTag(tagToCreate)];
    if s.tagList.failed {
      FailsAt(s, done, ListTag(tagToCreate));
      return 1, trace;
    }
    if s.tagList.stdout == "" {
      done := trace;
      trace := trace + [CreateTag(tagToCreate)];
      if s.tagCreate.failed {
        FailsAt(s, done, CreateTag(tagToCreate));
        return 1, trace;
      }
    }
    done := trace;
    trace := trace + [PushTag(remote, tagToCreate)];
    if s.push.failed {
      FailsAt(s, done, PushTag(remote, tagToCreate));
      return 1, trace;
    }
    Finished(s, trace);
    return 0, trace;
  }

  // ---------------------------------------------------------------------
  // Properties of a run

  /** Without a token nothing runs and the exit code is 1; with one, the
      first action reads the commit hash. */
  lemma TokenComesFirst(s: DevScript)
    ensures !HasToken(s) <==> DevRun(s).trace == []
    ensures !HasToken(s) ==> DevRun(s).exitCode == 1
    ensures HasToken(s) ==> DevRun(s).trace[0] == RevParse
  {
    if HasToken(s) {
      var planned := Planned(s);
      var n := Succeeding(s, planned);
      if n < |planned| {
        assert planned[..n + 1][0] == RevParse;
      }
    }
  }

  /** Every tag the run touches is the dev tag, and every remote it
      talks to is the branch's remote or "origin". */
  lemma {:induction false} TagAndRemote(s: DevScript)
    ensures forall k :: 0 <= k < |DevRun(s).trace| ==>
      (DevRun(s).trace[k].LsRemote? || DevRun(s).trace[k].ListTag? || DevRun(s).trace[k].CreateTag? || DevRun(s).trace[k].PushTag?)
      ==> DevRun(s).trace[k].tag == DevTag(s.version.stdout, s.head.stdout)
    ensures forall k :: 0 <= k < |DevRun(s).trace| ==>
      (DevRun(s).trace[k].LsRemote? || DevRun(s).trace[k].PushTag?)
      ==> DevRun(s).trace[k].remote == s.remote.GetOr("origin")
  {
    if HasToken(s) {
      var planned := Planned(s);
      var n := Succeeding(s, planned);
      if n < |planned| {
        assert forall k :: 0 <= k < n + 1 ==> planned[..n + 1][k] == planned[k];
      }
    }
  }

  /** When the remote already has the tag, the run ends with 0 right after
      asking, and no tag is created or pushed. */
  lemma AlreadyOnRemote(s: DevScript)
    requires HasToken(s) && !s.head.failed && !s.version.failed && !s.lsRemote.failed
    requires s.lsRemote.stdout != ""
    ensures DevRun(s) == DevOutcome(0, [RevParse, GetVersion, LsRemote(RemoteOf(s), TagOf(s))])
  {
    var planned := Planned(s);
    assert planned == [RevParse, GetVersion, LsRemote(RemoteOf(s), TagOf(s))];
    SucceedingIs(s, planned, 3);
  }

  /** A tag is created only when neither the remote nor the local
      repository has it, at most once, and the push comes right after it
      unless the creation fails. */
  lemma {:induction false} CreateOnlyWhenAbsent(s: DevScript)
    ensures var t := DevRun(s).trace;
      forall k :: 0 <= k < |t| && t[k].CreateTag? ==>
        s.lsRemote.stdout == "" && s.tagList.stdout == ""
        && k > 0 && t[k - 1] == ListTag(TagOf(s))
        && (forall j :: 0 <= j < |t| && t[j].CreateTag? ==> j == k)
        && (k + 1 < |t| ==> t[k + 1] == PushTag(RemoteOf(s), TagOf(s)))
  {
    if HasToken(s) {
      var planned := Planned(s);
      var n := Succeeding(s, planned);
      if n < |planned| {
        assert forall k :: 0 <= k < n + 1 ==> planned[..n + 1][k] == planned[k];
      }
    }
  }

  /** A run that exits with 0 either stopped because the remote has the
      tag, or pushed the tag as its last action. */
  lemma {:induction false} SuccessEndsWithPushOrSkip(s: DevScript)
    requires DevRun(s).exitCode == 0
    ensures HasToken(s)
    ensures var t := DevRun(s).trace;
      (s.lsRemote.stdout != "" && t == [RevParse, GetVersion, LsRemote(RemoteOf(s), TagOf(s))])
      || (s.lsRemote.stdout == "" && |t| > 0 && t[|t| - 1] == PushTag(RemoteOf(s), TagOf(s))
          && (CreateTag(TagOf(s)) in t <==> s.tagList.stdout == ""))
  {
    var planned := Planned(s);
    if s.lsRemote.stdout == "" && s.tagList.stdout != "" {
      assert forall k :: 0 <= k < |planned| ==> !planned[k].CreateTag?;
    }
  }
}
