/** `release.ts`: the gated release workflow. After checking the token it
    runs a fixed pipeline of external steps and yes/no questions, stopping
    at the first step that fails or question that is declined, then
    classifies the tagging output and publishes one release per tagged
    package, stopping at the first failure. */
module ReleaseScript {
  import opened Common
  import opened Prompt
  import opened Publish
  import opened TagOutput

  /** The four yes/no questions of the workflow. */
  datatype Gate = CommitGate | TagGate | PushGate | ReleaseGate

  /** The actions the workflow performs, in the terms of the script. */
  datatype Action =
    | CheckDiff          // git diff HEAD --quiet
    | ReadPlan           // read the changeset release plan
    | ChangesetStatus    // pnpm changeset status
    | ChangesetVersion   // pnpm changeset version
    | Ask(gate: Gate)    // a yes/no question
    | StageAll           // git add . --all
    | CommitAll          // git commit -m "Version packages"
    | ChangesetTag       // pnpm changeset tag
    | PushTags           // git push --follow-tags
    | Classify           // determinePackagesToRelease on the tagging output
    | PublishRelease(index: nat, target: TaggedPackage)  // the index-th createRelease call

  /** The steps before the publish loop, in the order the script runs them. */
  const Pipeline: seq<Action> := [
    CheckDiff, ReadPlan, ChangesetStatus, ChangesetVersion,
    Ask(CommitGate), StageAll, CommitAll,
    Ask(TagGate), ChangesetTag,
    Ask(PushGate), PushTags,
    Ask(ReleaseGate), Classify]

  /** How every external step of one run turns out, and what the user
      types at each question. `publish(k)` gives the outcomes of the steps
      inside the `k`-th `createRelease` call of the loop, counting from 0:
      each call is a request of its own, so two equal entries in the
      classifier's list may meet different answers (the forge refuses a
      second release for a tag that already has one). */
  datatype Script = Script(
    token: Option<string>,
    diffFailed: bool,
    changesetCount: nat,
    statusFailed: bool,
    versionFailed: bool,
    commitAnswer: string,
    stageFailed: bool,
    commitFailed: bool,
    tagAnswer: string,
    tagFailed: bool,
    tagStdout: string,
    pushAnswer: string,
    pushFailed: bool,
    releaseAnswer: string,
    packages: seq<Package>,
    layout: Layout,
    publish: nat -> PublishSteps)

  /** `GITHUB_TOKEN` is set and not empty. */
  predicate HasToken(s: Script) {
    s.token.Some? && s.token.value != ""
  }

  function AnswerTo(s: Script, g: Gate): string {
    match g
    case CommitGate => s.commitAnswer
    case TagGate => s.tagAnswer
    case PushGate => s.pushAnswer
    case ReleaseGate => s.releaseAnswer
  }

  /** The commit, tag and push questions default to yes; the release
      question passes no default. */
  function DefaultOf(g: Gate): Option<bool> {
    if g == ReleaseGate then None else Some(true)
  }

  /** The URL the `k`-th `createRelease` call gives, when it returns one:
      the forge's answer when none of the steps inside the call throws
      (`PublishedByCreateRelease` shows this is what the call returns,
      whichever package it is made for). */
  function Published(s: Script, k: nat): Option<string> {
    if FirstFailure(s.publish(k)).None? then Some(s.publish(k).answer.value) else None
  }

  lemma PublishedByCreateRelease(s: Script, k: nat, t: TaggedPackage)
    ensures Published(s, k).Some? <==> CreateRelease(t.pkg, t.tagName, s.publish(k)).Returned?
                                       && CreateRelease(t.pkg, t.tagName, s.publish(k)).sent.Some?
    ensures Published(s, k).Some? ==> Published(s, k).value == CreateRelease(t.pkg, t.tagName, s.publish(k)).sent.value.url
  {
  }

  /** Whether an action lets the workflow go on. */
  predicate Passes(s: Script, a: Action) {
    match a
    case CheckDiff => !s.diffFailed
    case ReadPlan => s.changesetCount > 0
    case ChangesetStatus => !s.statusFailed
    case ChangesetVersion => !s.versionFailed
    case Ask(g) => YesNo(AnswerTo(s, g), DefaultOf(g))
    case StageAll => !s.stageFailed
    case CommitAll => !s.commitFailed
    case ChangesetTag => !s.tagFailed
    case PushTags => !s.pushFailed
    case Classify => Classification(s.tagStdout, s.packages, s.layout).Ok?
    case PublishRelease(k, _) => Published(s, k).Some?
  }

  predicate AllPass(s: Script, acts: seq<Action>) {
    forall j :: 0 <= j < |acts| ==> Passes(s, acts[j])
  }

  /** How many actions at the front of `acts` pass. */
  function Leading(s: Script, acts: seq<Action>): (n: nat)
    ensures n <= |acts|
  {
    if acts == [] || !Passes(s, acts[0]) then 0 else 1 + Leading(s, acts[1..])
  }

  /** Why a run ended. */
  datatype Halt = MissingToken | Failed(at: Action) | Declined(gate: Gate) | Completed

  /** The halt for an action that does not pass. */
  function StopAt(a: Action): Halt {
    if a.Ask? then Declined(a.gate) else Failed(a)
  }

  /** The exit code of each way to end: declining the commit, tag or push
      question is a clean stop, declining the release question is not. */
  function ExitCode(h: Halt): nat {
    match h
    case MissingToken => 1
    case Failed(_) => 1
    case Declined(g) => if g == ReleaseGate then 1 else 0
    case Completed => 0
  }

  /** The packages the classifier tags; empty when it throws. */
  function Tags(s: Script): seq<TaggedPackage> {
    match Classification(s.tagStdout, s.packages, s.layout)
    case Ok(tags) => tags
    case Err(_) => []
  }

  function PublishActions(tags: seq<TaggedPackage>): (acts: seq<Action>)
    ensures |acts| == |tags|
    ensures forall i :: 0 <= i < |tags| ==> acts[i] == PublishRelease(i, tags[i])
  {
    seq(|tags|, i requires 0 <= i < |tags| => PublishRelease(i, tags[i]))
  }

  /** The URLs of the first `n` calls. */
  function Urls(s: Script, n: nat): (urls: seq<string>)
    ensures |urls| == n
    ensures forall i :: 0 <= i < n ==> urls[i] == Published(s, i).GetOr("")
  {
    seq(n, i requires 0 <= i < n => Published(s, i).GetOr(""))
  }

  /** The end of a run: why it ended, the exit code, the actions performed
      and, when the summary is printed, the release URLs it lists. */
  datatype Outcome = Outcome(halt: Halt, exitCode: nat, trace: seq<Action>, summary: Option<seq<string>>)

  /** The end of a run that stops inside the pipeline: at the first step
      that does not pass, which is the last action performed. */
  function PipelineStop(s: Script): Outcome
    requires Leading(s, Pipeline) < |Pipeline|
  {
    var n := Leading(s, Pipeline);
    Outcome(StopAt(Pipeline[n]), ExitCode(StopAt(Pipeline[n])), Pipeline[..n + 1], None)
  }

  /** The end of a run that gets through the pipeline: the publish actions
      up to the first that does not pass, or all of them and the summary. */
  function PublishRun(s: Script): Outcome {
    var tags := Tags(s);
    var pubs := PublishActions(tags);
    var m := Leading(s, pubs);
    if m < |pubs| then Outcome(Failed(pubs[m]), 1, Pipeline + pubs[..m + 1], None)
    else Outcome(Completed, 0, Pipeline + pubs, Some(Urls(s, |tags|)))
  }

  /** The run of the workflow for a script: everything up to the first
      pipeline step that does not pass, or else the whole pipeline and then
      the publish actions up to the first that does not pass. */
  function Run(s: Script): Outcome {
    if !HasToken(s) then Outcome(MissingToken, 1, [], None)
    else if Leading(s, Pipeline) < |Pipeline| then PipelineStop(s)
    else PublishRun(s)
  }

  // ---------------------------------------------------------------------
  // The script

  /** `release.ts` over a script of outcomes. */
  method Release(s: Script) returns (halt: Halt, exitCode: nat, trace: seq<Action>, summary: Option<seq<string>>)
    ensures Outcome(halt, exitCode, trace, summary) == Run(s)
  {
    if !HasToken(s) {
      return MissingToken, 1, [], None;
    }
    var progress := Prepare(s);
    if progress.Stopped? {
      return progress.outcome.halt, progress.outcome.exitCode, progress.outcome.trace, progress.outcome.summary;
    }
    progress := CommitVersion(s, progress.trace);
    if progress.Stopped? {
      return progress.outcome.halt, progress.outcome.exitCode, progress.outcome.trace, progress.outcome.summary;
    }
    progress := TagVersion(s, progress.trace);
    if progress.Stopped? {
      return progress.outcome.halt, progress.outcome.exitCode, progress.outcome.trace, progress.outcome.summary;
    }
    progress := PushVersion(s, progress.trace);
    if progress.Stopped? {
      return progress.outcome.halt, progress.outcome.exitCode, progress.outcome.trace, progress.outcome.summary;
    }
    trace := progress.trace;

    var shouldRelease := YesNo(s.releaseAnswer, None);
    if !shouldRelease {
      halt, exitCode, trace, summary := Stop(s, trace, Ask(ReleaseGate));
      return;
    }
    trace := Advance(s, trace, Ask(ReleaseGate));

    var classified := DeterminePackagesToRelease(s.tagStdout, s.packages, s.layout);
    if classified.Err? {
      halt, exitCode, trace, summary := Stop(s, trace, Classify);
      return;
    }
    trace := Advance(s, trace, Classify);
    assert trace == Pipeline[..|Pipeline|] == Pipeline;
    LeadingAll(s, Pipeline);

    halt, exitCode, trace, summary := PublishAll(s, classified.value);
  }

  /** Where the run stands after a stretch of steps: either it has ended,
      or it goes on with the actions performed so far. */
  datatype Progress = Stopped(outcome: Outcome) | Going(trace: seq<Action>)

  /** The run has got through the first `k` pipeline steps, all passing. */
  predicate Reached(s: Script, trace: seq<Action>, k: nat) {
    HasToken(s) && k <= |Pipeline| && trace == Pipeline[..k] && AllPass(s, trace)
  }

  /** A stretch of the run either ends it inside the pipeline, as
      `PipelineStop` says, or gets through all its steps. */
  predicate Ends(s: Script, progress: Progress, k: nat) {
    match progress
    case Stopped(outcome) => Leading(s, Pipeline) < |Pipeline| && outcome == PipelineStop(s)
    case Going(trace) => Reached(s, trace, k)
  }

  /** The checks before anything changes: a clean working tree, a
      non-empty release plan, `changeset status`, then `changeset version`. */
  method Prepare(s: Script) returns (progress: Progress)
    requires HasToken(s)
    ensures Ends(s, progress, 4)
  {
    var trace: seq<Action> := [];
    if s.diffFailed {
      var halt, exitCode, trace', summary := Stop(s, trace, CheckDiff);
      return Stopped(Outcome(halt, exitCode, trace', summary));
    }
    trace := Advance(s, trace, CheckDiff);
    if s.changesetCount == 0 {
      var halt, exitCode, trace', summary := Stop(s, trace, ReadPlan);
      return Stopped(Outcome(halt, exitCode, trace', summary));
    }
    trace := Advance(s, trace, ReadPlan);
    if s.statusFailed {
      var halt, exitCode, trace', summary := Stop(s, trace, ChangesetStatus);
      return Stopped(Outcome(halt, exitCode, trace', summary));
    }
    trace := Advance(s, trace, ChangesetStatus);
    if s.versionFailed {
      var halt, exitCode, trace', summary := Stop(s, trace, ChangesetVersion);
      return Stopped(Outcome(halt, exitCode, trace', summary));
    }
    trace := Advance(s, trace, ChangesetVersion);
    return Going(trace);
  }

  /** The commit question, then staging and committing. */
  method CommitVersion(s: Script, done: seq<Action>) returns (progress: Progress)
    requires Reached(s, done, 4)
    ensures Ends(s, progress, 7)
  {
    var trace := done;
    var shouldCommit := YesNo(s.commitAnswer, Some(true));
    assert Passes(s, Ask(CommitGate)) == shouldCommit;
    if !shouldCommit {
      var halt, exitCode, trace', summary := Stop(s, trace, Ask(CommitGate));
      return Stopped(Outcome(halt, exitCode, trace', summary));
    }
    trace := Advance(s, trace, Ask(CommitGate));
    if s.stageFailed {
      var halt, exitCode, trace', summary := Stop(s, trace, StageAll);
      return Stopped(Outcome(halt, exitCode, trace', summary));
    }
    trace := Advance(s, trace, StageAll);
    if s.commitFailed {
      var halt, exitCode, trace', summary := Stop(s, trace, CommitAll);
      return Stopped(Outcome(halt, exitCode, trace', summary));
    }
    trace := Advance(s, trace, CommitAll);
    return Going(trace);
  }

  /** The tag question, then `changeset tag`. */
  method TagVersion(s: Script, done: seq<Action>) returns (progress: Progress)
    requires Reached(s, done, 7)
    ensures Ends(s, progress, 9)
  {
    var trace := done;
    var shouldTag := YesNo(s.tagAnswer, Some(true));
    if !shouldTag {
      var halt, exitCode, trace', summary := Stop(s, trace, Ask(TagGate));
      return Stopped(Outcome(halt, exitCode, trace', summary));
    }
    trace := Advance(s, trace, Ask(TagGate));
    if s.tagFailed {
      var halt, exitCode, trace', summary := Stop(s, trace, ChangesetTag);
      return Stopped(Outcome(halt, exitCode, trace', summary));
    }
    trace := Advance(s, trace, ChangesetTag);
    return Going(trace);
  }

  /** The push question, then pushing the commit and its tags. */
  method PushVersion(s: Script, done: seq<Action>) returns (progress: Progress)
    requires Reached(s, done, 9)
    ensures Ends(s, progress, 11)
  {
    var trace := done;
    var shouldPush := YesNo(s.pushAnswer, Some(true));
    if !shouldPush {
      var halt, exitCode, trace', summary := Stop(s, trace, Ask(PushGate));
      return Stopped(Outcome(halt, exitCode, trace', summary));
    }
    trace := Advance(s, trace, Ask(PushGate));
    if s.pushFailed {
      var halt, exitCode, trace', summary := Stop(s, trace, PushTags);
      return Stopped(Outcome(halt, exitCode, trace', summary));
    }
    trace := Advance(s, trace, PushTags);
    return Going(trace);
  }

  /** The publish loop: one `createRelease` per tagged package, in
      classifier order; the first that throws or returns nothing ends the
      run with exit code 1 and no summary. */
  method PublishAll(s: Script, tags: seq<TaggedPackage>)
    returns (halt: Halt, exitCode: nat, trace: seq<Action>, summary: Option<seq<string>>)
    requires Classification(s.tagStdout, s.packages, s.layout) == Ok(tags)
    ensures Outcome(halt, exitCode, trace, summary) == PublishRun(s)
  {
    ghost var pubs := PublishActions(tags);
    trace := Pipeline;
    var releases: seq<string> := [];
    var i := 0;
    while i < |tags|
      invariant 0 <= i <= |tags|
      invariant trace == Pipeline + pubs[..i]
      invariant AllPass(s, pubs[..i])
      invariant releases == Urls(s, i)
    {
      var t := tags[i];
      var response := CreateRelease(t.pkg, t.tagName, s.publish(i));
      ResponseIsPublished(s, i, t, response);
      PublishedStep(s, tags, i);
      trace := trace + [PublishRelease(i, t)];
      if !(response.Returned? && response.sent.Some?) {
        PublishStops(s, tags, i);
        return Failed(PublishRelease(i, t)), 1, trace, None;
      }
      releases := releases + [response.sent.value.url];
      i := i + 1;
    }
    PublishCompletes(s, tags);
    return Completed, 0, trace, Some(releases);
  }

  /** What the loop reads off the response of `createRelease` is what
      `Published` says. */
  lemma ResponseIsPublished(s: Script, k: nat, t: TaggedPackage, response: CreateOutcome)
    requires response == CreateRelease(t.pkg, t.tagName, s.publish(k))
    ensures response.Returned? && response.sent.Some? <==> Published(s, k).Some?
    ensures response.Returned? && response.sent.Some? ==> Published(s, k).value == response.sent.value.url
  {
    PublishedByCreateRelease(s, k, t);
  }

  /** Publishing one more package extends the trace by its action and,
      when it yields a URL, the list of URLs by that URL. */
  lemma PublishedStep(s: Script, tags: seq<TaggedPackage>, i: nat)
    requires i < |tags| && AllPass(s, PublishActions(tags)[..i])
    ensures PublishActions(tags)[..i + 1] == PublishActions(tags)[..i] + [PublishRelease(i, tags[i])]
    ensures Published(s, i).Some? ==>
      AllPass(s, PublishActions(tags)[..i + 1])
      && Urls(s, i + 1) == Urls(s, i) + [Published(s, i).value]
  {
    var pubs := PublishActions(tags);
    assert pubs[..i + 1] == pubs[..i] + [pubs[i]];
  }

  /** The first package whose release yields no URL ends the run. */
  lemma PublishStops(s: Script, tags: seq<TaggedPackage>, i: nat)
    requires Classification(s.tagStdout, s.packages, s.layout) == Ok(tags)
    requires i < |tags| && AllPass(s, PublishActions(tags)[..i]) && Published(s, i).None?
    ensures PublishRun(s) == Outcome(Failed(PublishRelease(i, tags[i])), 1, Pipeline + PublishActions(tags)[..i + 1], None)
  {
    LeadingIs(s, PublishActions(tags), i);
  }

  /** With every package released, the run completes and lists their URLs. */
  lemma PublishCompletes(s: Script, tags: seq<TaggedPackage>)
    requires Classification(s.tagStdout, s.packages, s.layout) == Ok(tags)
    requires AllPass(s, PublishActions(tags)[..|tags|])
    ensures PublishActions(tags)[..|tags|] == PublishActions(tags)
    ensures PublishRun(s) == Outcome(Completed, 0, Pipeline + PublishActions(tags), Some(Urls(s, |tags|)))
  {
    var pubs := PublishActions(tags);
    assert pubs[..|tags|] == pubs;
    LeadingIs(s, pubs, |tags|);
  }

  /** One more pipeline step passed: it joins the trace. */
  method Advance(s: Script, done: seq<Action>, a: Action) returns (trace: seq<Action>)
    requires Reached(s, done, |done|) && |done| < |Pipeline| && a == Pipeline[|done|] && Passes(s, a)
    ensures trace == done + [a]
    ensures Reached(s, trace, |done| + 1)
  {
    trace := done + [a];
    assert Pipeline[..|done| + 1] == Pipeline[..|done|] + [a];
  }

  /** A pipeline step did not pass: the run ends there. */
  method Stop(s: Script, done: seq<Action>, a: Action)
    returns (halt: Halt, exitCode: nat, trace: seq<Action>, summary: Option<seq<string>>)
    requires Reached(s, done, |done|) && |done| < |Pipeline| && a == Pipeline[|done|] && !Passes(s, a)
    ensures Leading(s, Pipeline) < |Pipeline|
    ensures Outcome(halt, exitCode, trace, summary) == PipelineStop(s)
  {
    halt := StopAt(a);
    exitCode := ExitCode(halt);
    trace := done + [a];
    summary := None;
    PipelineStopAt(s, done, a);
  }

  /** Where the pipeline stops once `done` passed and `a` did not. */
  lemma PipelineStopAt(s: Script, done: seq<Action>, a: Action)
    requires |done| < |Pipeline| && done == Pipeline[..|done|] && AllPass(s, done)
    requires a == Pipeline[|done|] && !Passes(s, a)
    ensures Leading(s, Pipeline) == |done|
    ensures PipelineStop(s) == Outcome(StopAt(a), ExitCode(StopAt(a)), done + [a], None)
  {
    LeadingIs(s, Pipeline, |done|);
    assert Pipeline[..|done| + 1] == done + [a];
  }

  // ---------------------------------------------------------------------
  // Leading passes

  /** The count of leading passes is pinned by where the first failure is. */
  lemma {:induction false} LeadingIs(s: Script, acts: seq<Action>, k: nat)
    requires k <= |acts| && AllPass(s, acts[..k])
    requires k < |acts| ==> !Passes(s, acts[k])
    ensures Leading(s, acts) == k
  {
    if k > 0 {
      assert Passes(s, acts[..k][0]);
      assert acts[1..][..k - 1] == acts[..k][1..];
      LeadingIs(s, acts[1..], k - 1);
    }
  }

  /** Everything before the count passes, and the action at the count does
      not. */
  lemma {:induction false} LeadingSpec(s: Script, acts: seq<Action>)
    ensures AllPass(s, acts[..Leading(s, acts)])
    ensures Leading(s, acts) < |acts| ==> !Passes(s, acts[Leading(s, acts)])
  {
    if acts != [] && Passes(s, acts[0]) {
      LeadingSpec(s, acts[1..]);
      var n := Leading(s, acts);
      assert acts[..n] == [acts[0]] + acts[1..][..n - 1];
    }
  }

  lemma LeadingAll(s: Script, acts: seq<Action>)
    requires AllPass(s, acts)
    ensures Leading(s, acts) == |acts|
  {
    assert acts[..|acts|] == acts;
    LeadingIs(s, acts, |acts|);
  }

  // ---------------------------------------------------------------------
  // Properties of a run

  /** The shape of every run: a missing token stops it before any action;
      otherwise the actions performed are a prefix of the pipeline followed
      by one publish action per tagged package, every action but the last
      passed, the last one is the one that stopped the run unless the run
      completed, and the exit code is the one of the halt. The summary is
      printed only for a completed run. */
  predicate WellShaped(s: Script, r: Outcome) {
    var plan := Pipeline + PublishActions(Tags(s));
    (r.halt == MissingToken <==> !HasToken(s))
    && (r.halt == MissingToken ==> r.trace == [])
    && r.exitCode == ExitCode(r.halt)
    && (r.summary.Some? <==> r.halt == Completed)
    && |r.trace| <= |plan|
    && r.trace == plan[..|r.trace|]
    && (|r.trace| > 0 ==> AllPass(s, r.trace[..|r.trace| - 1]))
    && ((r.halt.Failed? || r.halt.Declined?) ==>
          |r.trace| > 0 && !Passes(s, r.trace[|r.trace| - 1]) && r.halt == StopAt(r.trace[|r.trace| - 1]))
    && (r.halt == Completed ==> r.trace == plan && AllPass(s, r.trace))
  }

  lemma RunShape(s: Script)
    ensures WellShaped(s, Run(s))
  {
    if HasToken(s) {
      LeadingSpec(s, Pipeline);
      if Leading(s, Pipeline) < |Pipeline| {
        ShapeOfPipelineStop(s);
      } else {
        ShapeOfPublishing(s);
      }
    }
  }

  /** A run that stops at action `k` of its plan is well shaped. */
  lemma StoppedShape(s: Script, k: nat, r: Outcome)
    requires HasToken(s)
    requires k < |Pipeline + PublishActions(Tags(s))|
    requires AllPass(s, (Pipeline + PublishActions(Tags(s)))[..k])
    requires !Passes(s, (Pipeline + PublishActions(Tags(s)))[k])
    requires var a := (Pipeline + PublishActions(Tags(s)))[k];
      r == Outcome(StopAt(a), ExitCode(StopAt(a)), (Pipeline + PublishActions(Tags(s)))[..k + 1], None)
    ensures WellShaped(s, r)
  {
    var plan := Pipeline + PublishActions(Tags(s));
    assert r.trace[..|r.trace| - 1] == plan[..k];
    assert r.trace[|r.trace| - 1] == plan[k];
    assert r.trace == plan[..|r.trace|];
  }

  lemma ShapeOfPipelineStop(s: Script)
    requires HasToken(s) && Leading(s, Pipeline) < |Pipeline|
    ensures WellShaped(s, Run(s))
  {
    var plan := Pipeline + PublishActions(Tags(s));
    var n := Leading(s, Pipeline);
    LeadingSpec(s, Pipeline);
    assert plan[..n + 1] == Pipeline[..n + 1];
    assert plan[..n] == Pipeline[..n];
    StoppedShape(s, n, Run(s));
  }

  lemma ShapeOfPublishing(s: Script)
    requires HasToken(s) && Leading(s, Pipeline) == |Pipeline|
    ensures WellShaped(s, Run(s))
  {
    var pubs := PublishActions(Tags(s));
    var plan := Pipeline + pubs;
    LeadingSpec(s, Pipeline);
    assert Pipeline[..|Pipeline|] == Pipeline;
    var m := Leading(s, pubs);
    LeadingSpec(s, pubs);
    if m < |pubs| {
      assert plan[..|Pipeline| + m] == Pipeline + pubs[..m];
      assert plan[..|Pipeline| + m + 1] == Pipeline + pubs[..m + 1];
      AllPassAppend(s, Pipeline, pubs[..m]);
      StoppedShape(s, |Pipeline| + m, Run(s));
    } else {
      assert pubs[..m] == pubs;
      AllPassAppend(s, Pipeline, pubs);
      assert plan[..|plan|] == plan;
      assert plan[..|plan| - 1] == plan[..|plan|][..|plan| - 1];
    }
  }

  lemma AllPassAppend(s: Script, a: seq<Action>, b: seq<Action>)
    requires AllPass(s, a) && AllPass(s, b)
    ensures AllPass(s, a + b)
  {
    assert forall j :: 0 <= j < |a + b| ==> (a + b)[j] == if j < |a| then a[j] else b[j - |a|];
  }

  /** A step of the pipeline that does not pass, after all earlier ones
      did, ends the run right there: a failing step or a declined release
      question with exit code 1, a declined commit, tag or push question
      with exit code 0, and nothing later runs. */
  lemma StopsAt(s: Script, k: nat)
    requires HasToken(s) && k < |Pipeline|
    requires AllPass(s, Pipeline[..k]) && !Passes(s, Pipeline[k])
    ensures Run(s) == Outcome(StopAt(Pipeline[k]), ExitCode(StopAt(Pipeline[k])), Pipeline[..k + 1], None)
    ensures Pipeline[k].Ask? ==> (Run(s).exitCode == 0 <==> Pipeline[k].gate != ReleaseGate)
    ensures !Pipeline[k].Ask? ==> Run(s).exitCode == 1
  {
    LeadingIs(s, Pipeline, k);
  }

  /** A dirty working tree, an empty release plan or a failing `changeset
      status` or `changeset version` exits with 1 before any question is
      asked. */
  lemma PreflightFailureExitsOne(s: Script, k: nat)
    requires HasToken(s) && k < 4
    requires AllPass(s, Pipeline[..k]) && !Passes(s, Pipeline[k])
    ensures Run(s).exitCode == 1 && Run(s).halt == Failed(Pipeline[k])
    ensures |Run(s).trace| == k + 1 && forall j :: 0 <= j < |Run(s).trace| ==> !Run(s).trace[j].Ask?
  {
    StopsAt(s, k);
  }

  /** Pressing enter at every question (or typing only white space) goes
      through the commit, tag and push questions and declines the release
      question, so a run whose steps all succeed then exits with 1. */
  lemma BlankAnswersDeclineRelease(s: Script)
    requires HasToken(s)
    requires AllSpace(s.commitAnswer) && AllSpace(s.tagAnswer) && AllSpace(s.pushAnswer) && AllSpace(s.releaseAnswer)
    requires !s.diffFailed && s.changesetCount > 0 && !s.statusFailed && !s.versionFailed
    requires !s.stageFailed && !s.commitFailed && !s.tagFailed && !s.pushFailed
    ensures Run(s) == Outcome(Declined(ReleaseGate), 1, Pipeline[..12], None)
  {
    BlankAnswersPassToReleaseGate(s);
    StopsAt(s, 11);
  }

  /** The step facts behind `BlankAnswersDeclineRelease`: the first eleven
      actions pass and the twelfth, the release question, does not. */
  lemma BlankAnswersPassToReleaseGate(s: Script)
    requires AllSpace(s.commitAnswer) && AllSpace(s.tagAnswer) && AllSpace(s.pushAnswer) && AllSpace(s.releaseAnswer)
    requires !s.diffFailed && s.changesetCount > 0 && !s.statusFailed && !s.versionFailed
    requires !s.stageFailed && !s.commitFailed && !s.tagFailed && !s.pushFailed
    ensures AllPass(s, Pipeline[..11]) && !Passes(s, Pipeline[11])
  {
    BlankAnswerYieldsDefault(s.commitAnswer, Some(true));
    BlankAnswerYieldsDefault(s.tagAnswer, Some(true));
    BlankAnswerYieldsDefault(s.pushAnswer, Some(true));
    BlankAnswerYieldsDefault(s.releaseAnswer, None);
    assert Pipeline[..11] == [CheckDiff, ReadPlan, ChangesetStatus, ChangesetVersion,
      Ask(CommitGate), StageAll, CommitAll, Ask(TagGate), ChangesetTag, Ask(PushGate), PushTags];
  }

  /** Once the pipeline has passed, the run completes exactly when every
      `createRelease` call of the loop, one per entry of the classifier's
      list, yields a URL, and then the summary lists those URLs in the
      order of the calls. */
  lemma {:induction false} CompletesIffAllPublished(s: Script)
    requires HasToken(s) && AllPass(s, Pipeline)
    ensures Run(s).halt == Completed <==> forall k :: 0 <= k < |Tags(s)| ==> Published(s, k).Some?
    ensures Run(s).halt == Completed ==>
      Run(s).summary.Some? && |Run(s).summary.value| == |Tags(s)|
      && forall k :: 0 <= k < |Tags(s)| ==> Published(s, k) == Some(Run(s).summary.value[k])
  {
    LeadingAll(s, Pipeline);
    var pubs := PublishActions(Tags(s));
    LeadingSpec(s, pubs);
    PublishPasses(s, Tags(s));
    if Leading(s, pubs) < |pubs| {
      assert !Passes(s, pubs[Leading(s, pubs)]);
    } else {
      assert pubs[..Leading(s, pubs)] == pubs;
      assert forall k :: 0 <= k < |pubs| ==> Passes(s, pubs[k]);
    }
  }

  /** The `k`-th publish action passes exactly when the `k`-th call
      yields a URL. */
  lemma PublishPasses(s: Script, tags: seq<TaggedPackage>)
    ensures forall k :: 0 <= k < |tags| ==> (Passes(s, PublishActions(tags)[k]) <==> Published(s, k).Some?)
  {
  }

  /** Once the pipeline has passed, a run that does not complete stopped
      at the first package that yields no URL, after every earlier one was
      published; no later package is attempted, the exit code is 1 and no
      summary is printed. */
  lemma {:induction false} PublishStopsAtFirstFailure(s: Script)
    requires HasToken(s) && AllPass(s, Pipeline) && Run(s).halt != Completed
    ensures Run(s).summary.None? && Run(s).exitCode == 1
    ensures var m := |Run(s).trace| - |Pipeline| - 1;
      0 <= m < |Tags(s)| && Run(s).halt == Failed(PublishRelease(m, Tags(s)[m]))
      && Run(s).trace == Pipeline + PublishActions(Tags(s))[..m + 1]
      && Published(s, m).None?
      && forall j :: 0 <= j < m ==> Published(s, j).Some?
  {
    LeadingAll(s, Pipeline);
    var pubs := PublishActions(Tags(s));
    var m := Leading(s, pubs);
    LeadingSpec(s, pubs);
    PublishPasses(s, Tags(s));
    assert !Passes(s, pubs[m]);
    assert forall j :: 0 <= j < m ==> pubs[..m][j] == pubs[j];
  }

  /** A package listed twice is released twice, by two separate calls:
      when the forge accepts the first and refuses the second, the run
      fails at the second with exit code 1 and prints no summary. */
  lemma RepeatedEntryFailsOnRefusal(s: Script)
    requires HasToken(s) && AllPass(s, Pipeline)
    requires |Tags(s)| == 2 && Tags(s)[0] == Tags(s)[1]
    requires Published(s, 0).Some? && Published(s, 1).None?
    ensures Run(s) == Outcome(Failed(PublishRelease(1, Tags(s)[0])), 1, Pipeline + PublishActions(Tags(s)), None)
  {
    LeadingAll(s, Pipeline);
    var pubs := PublishActions(Tags(s));
    assert pubs[..1] == [pubs[0]];
    LeadingIs(s, pubs, 1);
    assert pubs[..2] == pubs;
  }
}
