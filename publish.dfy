/** `createRelease`: read the package's changelog, cut out the entry for
    its version, resolve the repository and ask the forge for a release;
    any failure on the way is either rethrown or swallowed. */
module Publish {
  import opened Common
  import opened Changelog

  /** The repository the working copy's remote points at. */
  datatype GitRemote = GitRemote(owner: string, project: string)

  /** The fields of the release the forge is asked to create. */
  datatype ReleaseRequest = ReleaseRequest(
    name: string,
    tagName: string,
    body: seq<Node>,
    prerelease: bool,
    repo: string,
    owner: string)

  /** A release request the forge answered, with the `url` of the answer. */
  datatype Sent = Sent(request: ReleaseRequest, url: string)

  /** What the three external steps of one `createRelease` call give: the
      parsed `CHANGELOG.md` of the package, the repository behind the
      remote, and the `url` of the forge's answer. Each either yields its
      value or throws. */
  datatype PublishSteps = PublishSteps(
    changelog: Result<seq<Node>, Failure>,
    remote: Result<GitRemote, Failure>,
    answer: Result<string, Failure>)

  /** How a `createRelease` call ends: it returns the forge's answer, or
      `undefined` (`Returned(None)`), or it throws. */
  datatype CreateOutcome = Returned(sent: Option<Sent>) | Thrown(error: Failure)

  /** The catch clause lets an error through only when it carries a `code`
      and that code is not "ENOENT". */
  predicate Rethrows(f: Failure) {
    f.code.Some? && f.code.value != "ENOENT"
  }

  function Swallow(f: Failure): (r: CreateOutcome)
    ensures r.Thrown? <==> Rethrows(f)
    ensures r.Thrown? ==> r.error == f
    ensures r.Returned? ==> r.sent.None?
  {
    if Rethrows(f) then Thrown(f) else Returned(None)
  }

  /** `owner/project`, the `repository` string the remote resolves to. */
  function RepositoryOf(r: GitRemote): string {
    r.owner + "/" + r.project
  }

  /** The error the try block stops at: the first step, in the order the
      steps run, that throws. */
  function FirstFailure(steps: PublishSteps): Option<Failure> {
    if steps.changelog.Err? then Some(steps.changelog.error)
    else if steps.remote.Err? then Some(steps.remote.error)
    else if steps.answer.Err? then Some(steps.answer.error)
    else None
  }

  /** `createRelease` for a package and the tag it was given.

      The error rule: with no failing step the forge's answer is returned;
      otherwise the first failure propagates when it carries a code other
      than "ENOENT", and the call returns `undefined` in every other case
      (a missing changelog, or an error without a code).

      The payload: title and tag are both the given tag name, the body is
      the changelog section for the package's version (the whole changelog
      when no heading names that version), the release is a prerelease
      exactly when the version contains '-', and repository and owner come
      from the remote. */
  function CreateRelease(pkg: Package, tagName: string, steps: PublishSteps): (r: CreateOutcome)
    ensures r.Thrown? ==> r.error.code.Some? && r.error.code.value != "ENOENT"
    ensures FirstFailure(steps).None? <==> r.Returned? && r.sent.Some?
    ensures FirstFailure(steps).Some? && Rethrows(FirstFailure(steps).value) <==> r.Thrown?
    ensures r.Thrown? ==> r.error == FirstFailure(steps).value
    ensures FirstFailure(steps).Some? && !Rethrows(FirstFailure(steps).value) <==> r == Returned(None)
    ensures r.Returned? && r.sent.Some? ==>
      steps.changelog.Ok? && steps.remote.Ok? && steps.answer.Ok?
      && r.sent.value.request.name == tagName && r.sent.value.request.tagName == tagName
      && (r.sent.value.request.prerelease <==> exists i :: 0 <= i < |pkg.version| && pkg.version[i] == '-')
      && r.sent.value.request.body == Section(steps.changelog.value, pkg.version)
      && r.sent.value.request.repo == steps.remote.value.owner + "/" + steps.remote.value.project
      && r.sent.value.request.owner == steps.remote.value.owner
      && r.sent.value.url == steps.answer.value
  {
    match steps.changelog
    case Err(f) => Swallow(f)
    case Ok(doc) =>
      var entry := Entry(doc, pkg.version);
      match steps.remote
      case Err(f) => Swallow(f)
      case Ok(remote) =>
        var request := ReleaseRequest(tagName, tagName, entry.content, '-' in pkg.version,
                                      RepositoryOf(remote), remote.owner);
        match steps.answer
        case Err(f) => Swallow(f)
        case Ok(url) => Returned(Some(Sent(request, url)))
  }
}
