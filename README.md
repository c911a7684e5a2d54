# Release scripts of changesets-playground, modelled in Dafny

The repository ships three TypeScript scripts that cut releases of a
pnpm/changesets workspace:

- `scripts/utils.ts` holds the helpers:
  - the changelog section extractor `getChangelogEntry` and the `BumpLevels` order;
  - the tag-output classifier `determinePackagesToRelease`;
  - the release-creating `createRelease`, with its error-swallowing catch;
  - the prompt helper `yesNoQuestion`.
- `scripts/release.ts` is the gated release workflow:
  - it checks `GITHUB_TOKEN`;
  - it runs `git diff`, reads the release plan, then runs `changeset status` and `changeset version`;
  - it asks before each of commit, tag and push, then asks before releasing;
  - it classifies the tagging output and creates one forge release per tagged package, stopping at the first failure.
- `scripts/dev-release.ts` tags the latest commit of `package-a` as a dev
  release and pushes the tag, unless the remote already has it.

The model follows the code's own form:

- The pure parts of `utils.ts` are Dafny functions and lemmas:
  - the bump level, the section boundaries, the regular-expression line matcher, the registry, the trim-and-answer rule;
  - the payload and error rule of `createRelease`.
- The imperative parts are methods proved against a specification function:
  - the extractor's scan loop and slice (`Changelog.ScanNodes`, `Changelog.GetChangelogEntry`, specified by `Changelog.Entry`);
  - the classifier's line loops (`TagOutput.DeterminePackagesToRelease`, specified by `TagOutput.Classification`);
  - the straight-line release script with its publish loop (`ReleaseScript.Release`, specified by `ReleaseScript.Run`);
  - the dev-release script (`DevRelease.Release`, specified by `DevRelease.DevRun`).
- External effects are inputs. A `Script` / `DevScript` value holds how each command turns out, what the user types at each question, what the tagging step printed, the workspace packages and the layout kind. For each `createRelease` call of the publish loop, by its position in the loop, it also holds the outcome of the three steps inside that call: reading the changelog, resolving the remote, and the forge call. Outcomes are keyed by position, not by package, because a package listed twice is released by two separate requests, and the forge refuses the second release of a tag.
- A run produces:
  - why it ended;
  - the exit code;
  - the trace of actions performed;
  - the URL list when the summary is printed.

Files:

- `common.dfy`: Option, Result, thrown errors with an optional `code`, packages, JavaScript white space.
- `changelog.dfy`: `getChangelogEntry`, with the document as a list of top-level nodes.
- `tag_output.dfy`: line splitting, the `New tag:` matcher, the registry and `determinePackagesToRelease`.
- `tag_greedy.dfy`: how greedy the `\s+` and `[^/]+` of the `New tag:` pattern are.
- `prompt.dfy`: `String.prototype.trim` and the answer rule of `yesNoQuestion`.
- `publish.dfy`: `createRelease`.
- `release.dfy`: `release.ts`.
- `dev_release.dfy`: `dev-release.ts`.

Where the code and the intended design disagree, the model follows the code:

- When no heading equals the version, `getChangelogEntry` keeps the whole document, not an empty body.
- The bump-level scan stops at the heading that closes the section, so headings after it are not counted.
- The "missing changelog entry" error of `createRelease` is unreachable, because the extractor always returns an object. It is not a branch of the model.
- When `createRelease` swallows an error it returns `undefined`. `release.ts` then reads `.url` of `undefined`, and its own catch turns that into exit 1. So a package whose changelog file is missing makes the run fail; it is not silently skipped.
- `determinePackagesToRelease` is called outside the publish loop's `try`. When it throws, the script ends through the unhandled rejection, with exit code 1.
- No partial list of releases is printed when publishing fails.
- The workspace registry is a `Map` built from pairs. When two packages share a name, the later one wins.
- The `repo` field of the release request is the `owner/project` string that `parseGitUrl` builds (`scripts/utils.ts:134`, used at `:167`). The forge API expects the project name alone. `Publish.RepositoryOf` and `Publish.CreateRelease` keep the code's `owner/project`.

## Model

| member | source | states |
|---|---|---|
| Changelog.Lower | scripts/utils.ts:81 | lower-casing keeps the length; only ASCII letters change (see the `Changelog.Lower` line under "## Left out") |
| Changelog.FirstKeyword | scripts/utils.ts:81 | the search for "major", "minor" or "patch": by `Changelog.FirstKeywordIsLeftmost`, none exactly when no keyword starts anywhere, otherwise the level of the leftmost one |
| Changelog.HeadingLevel | scripts/utils.ts:79-85 | a heading counts with the level of the leftmost keyword in its lower-cased text, and `dep` without one; any other node counts as `dep` |
| Changelog.MaxLevel | scripts/utils.ts:66-85 | the running `Math.max` over the nodes: by `Changelog.MaxLevelIsMaximum` an upper bound of every node's level that is `dep` or some node's level |
| Changelog.FirstKeywordIsLeftmost | scripts/utils.ts:81-83 | the keyword search finds nothing exactly when no "major", "minor" or "patch" starts anywhere; otherwise it reports the level of the leftmost one |
| Changelog.MaxLevelIsMaximum | scripts/utils.ts:66-84 | the running maximum is at least every node's level and is `dep` or the level of some node |
| Changelog.FindVersion | scripts/utils.ts:86-92 | a reported start is a heading whose text is exactly the version |
| Changelog.FindVersionIsFirst | scripts/utils.ts:86-92 | no earlier heading has the version as its text, so the first such heading starts the section |
| Changelog.FindEnd | scripts/utils.ts:93-99 | a reported end is a heading of exactly the start heading's depth |
| Changelog.FindEndIsFirst | scripts/utils.ts:93-99 | no heading of that depth lies between the start and the reported end |
| Changelog.ScanNodes | scripts/utils.ts:77-102 | the loop records the first version heading with its depth and the first later heading of that depth. Its level is the maximum over the nodes up to and including that closing heading |
| Changelog.GetChangelogEntry | scripts/utils.ts:63-110 | the method returns the entry of the specification: the section slice and the level of the scanned prefix |
| Changelog.Section | scripts/utils.ts:86-105 | the slice the extractor keeps: by `Changelog.SectionIsBetweenHeadings` and `Changelog.SectionFromBoundaries` the nodes between the first version heading and the next heading of its depth, and by `Changelog.WholeDocumentWithoutVersion` the whole document when no heading names the version |
| Changelog.Entry | scripts/utils.ts:63-110 | the returned entry: `Section` as content, and as level the maximum over the nodes up to and including the closing heading (`Changelog.HighestLevelIsMaximum`, `Changelog.LaterNodesIgnored`). `Changelog.GetChangelogEntry` computes exactly this |
| Changelog.SectionIsBetweenHeadings | scripts/utils.ts:86-104 | the content is exactly the nodes strictly after the first version heading, up to the next heading of the same depth or the end of the document. Deeper and shallower headings stay inside |
| Changelog.SectionFromBoundaries | scripts/utils.ts:86-104 | conversely, any start and end with those properties give the content the extractor returns |
| Changelog.WholeDocumentWithoutVersion | scripts/utils.ts:103-107 | with no heading equal to the version, the whole document comes back, and the level covers every node |
| Changelog.HighestLevelIsMaximum | scripts/utils.ts:77-102 | the level is within 0..3 and is the maximum of `dep` and the levels of the headings scanned up to and including the closing one |
| Changelog.LaterNodesIgnored | scripts/utils.ts:93-99 | once a closing heading exists, appending nodes changes neither the content nor the level |
| Changelog.LevelStopsAtSectionEnd | scripts/utils.ts:93-99 | a "Major Changes" heading after the closing heading leaves the level at `dep` |
| TagOutput.SplitLines | scripts/utils.ts:20 | `split("\n")`: at least one line, and by `TagOutput.SplitLinesRoundTrip`, `TagOutput.SplitLinesHaveNoLineFeed` and `TagOutput.JoinLinesRoundTrip` exactly the pieces between line feeds |
| TagOutput.SplitLinesRoundTrip | scripts/utils.ts:20 | splitting at line feeds loses nothing: joining the lines with line feeds gives the output back |
| TagOutput.SplitLinesHaveNoLineFeed | scripts/utils.ts:20 | no line produced by the split holds a line feed |
| TagOutput.JoinLinesRoundTrip | scripts/utils.ts:20 | lines without line feeds are split back into exactly themselves |
| TagOutput.MatchFrom | scripts/utils.ts:17-21 | the regular-expression search from a position: by `TagOutput.MatchFromNone` nothing only when no match exists, by `TagOutput.MatchFromLeftmost` the capture of a match at the leftmost matching position |
| TagOutput.MatchLine | scripts/utils.ts:17-25 | `line.match(newTagRegex)[1]`: the search from the start of the line, with the properties of `TagOutput.MatchFrom` |
| TagOutput.GroupAtSound | scripts/utils.ts:17 | what the capture group matches is a scoped `@scope/name` or a name without `/` |
| TagOutput.ScopedAtFinds | scripts/utils.ts:17 | the scoped alternative captures a scoped name up to the `@` that ends it |
| TagOutput.GroupAtComplete | scripts/utils.ts:17 | the capture group matches wherever a scoped or unscoped name is followed by `@` and a non-space character |
| TagOutput.MatchAtMarker | scripts/utils.ts:17 | at a "New tag:" marker, trying the group after each length of the white-space run succeeds exactly when some white space, name and version follow the marker. What it finds is such a match |
| TagOutput.MatchFromNone | scripts/utils.ts:21-23 | the matcher reports no match only when no position of the line matches the pattern |
| TagOutput.MatchFromLeftmost | scripts/utils.ts:21-25 | a reported name is the capture of a match at the leftmost matching position |
| TagGreedy.LastSplitIsLast | scripts/utils.ts:17 | no `@` followed by a non-space character lies between the chosen split and the bound |
| TagGreedy.UnscopedSplitsAtLastAt | scripts/utils.ts:17 | greedy `[^/]+`: an unscoped name is split at the last `@` that comes before the first `/` and is followed by a non-space character, so "a@1 b@2" yields "a@1 b" |
| TagGreedy.TryGroupsLongestSpace | scripts/utils.ts:17 | greedy `\s+`: the group starts at the latest position that works, so no later start up to the end of the white space has a match |
| TagOutput.UnscopedAtFinds | scripts/utils.ts:17 | a name without `/` followed by `@` and a version without `@` or `/` is captured whole |
| TagOutput.FirstMarkerYieldsName | scripts/utils.ts:17-25 | a line whose first marker is followed by white space and a name the group matches yields that name |
| TagOutput.TaggedLineYieldsName | scripts/utils.ts:17-25 | a line "…New tag:", white space, `name@version` yields exactly `name`, scoped or not |
| TagOutput.Registry | scripts/utils.ts:18 | `new Map(packages.map(...))`: by `TagOutput.RegistryLastWins` it holds exactly the names of the packages, each mapped to the last package of that name |
| TagOutput.MatchedNames | scripts/utils.ts:20-25 | the captures of the matching lines, in line order (`TagOutput.MatchedNamesAppend`) |
| TagOutput.WorkspaceTags | scripts/utils.ts:26-34 | the lookup and push of the workspace loop: by `TagOutput.WorkspaceTagsSpec` and `TagOutput.WorkspaceTagsErrStays` one `name@version` tag per name when all are registered, else the error of the first unknown name |
| TagOutput.HasMarker | scripts/utils.ts:40-44 | `/New tag:/` matches: by `TagOutput.HasMarkerSpec` the marker occurs somewhere in the line |
| TagOutput.Classification | scripts/utils.ts:13-54 | what the classifier returns or throws: stated by `TagOutput.WorkspaceClassification` and `TagOutput.RootClassification`, and computed by `TagOutput.DeterminePackagesToRelease` |
| TagOutput.RegistryLastWins | scripts/utils.ts:18 | a name is in the registry exactly when some package has it, and it maps to the last package of that name |
| TagOutput.MatchedNamesAppend | scripts/utils.ts:20-25 | one name per matching line, in line order: the names of two outputs put together are the names of each, in order |
| TagOutput.WorkspaceTagsSpec | scripts/utils.ts:20-34 | the tags are built exactly when every name is registered, with one `name@version` tag per name in order. Otherwise the error names the first unregistered name |
| TagOutput.WorkspaceTagsErrStays | scripts/utils.ts:27-29 | once a name is unknown, later lines do not change the error |
| TagOutput.HasMarkerSpec | scripts/utils.ts:40-42 | `/New tag:/` matches a line exactly when the marker occurs somewhere in it |
| TagOutput.FirstMarked | scripts/utils.ts:41-50 | the index of the first line holding the marker: no earlier line holds it |
| TagOutput.DeterminePackagesToRelease | scripts/utils.ts:13-54 | the two line loops compute the specification of the classifier, including its two errors |
| TagOutput.WorkspaceClassification | scripts/utils.ts:16-34 | workspace layout: the call succeeds exactly when every announced name is a workspace package. It then gives one tag per matching line, in line order, naming a package of that name with tag `name@version`. Otherwise it fails with the first unknown name |
| TagOutput.RootClassification | scripts/utils.ts:35-51 | root layout: no package is an error whatever the output. Otherwise there is at most one tag, `v` plus the first package's version, present exactly when some line holds the marker |
| Prompt.SkipSpacesBack | scripts/utils.ts:189 | the start of the trailing white-space run: everything after it is white space, the character before it is not |
| Prompt.Trim | scripts/utils.ts:189 | `trim()`: by `Prompt.TrimSplits` and `Prompt.TrimOfPadded` the input is white space, the result, then white space, and the result starts and ends with a non-space character |
| Prompt.YesNo | scripts/utils.ts:187-190 | the answer rule: by `Prompt.BlankAnswerYieldsDefault` a blank answer gives the default (false when none), and by `Prompt.TextAnswerIgnoresDefault` any other answer is true exactly when it trims to "Y" or "y" |
| Prompt.TrimSplits | scripts/utils.ts:189 | trimming leaves a trimmed text, and the input is white space, that text, then white space |
| Prompt.TrimOfPadded | scripts/utils.ts:189 | trimming a trimmed text padded with white space gives back exactly that text |
| Prompt.BlankAnswerYieldsDefault | scripts/utils.ts:187-190 | an empty or all-white-space answer yields the default, and false when the caller passed none |
| Prompt.TextAnswerIgnoresDefault | scripts/utils.ts:189-190 | any other answer yields true exactly when its trimmed text is "Y" or "y", whatever the default |
| Publish.Swallow | scripts/utils.ts:171-181 | the catch rethrows exactly an error with a `code` other than "ENOENT". Anything else makes the call return `undefined` |
| Publish.RepositoryOf | scripts/utils.ts:134 | the `repository` string `owner/project` that becomes the request's `repo` (`Publish.CreateRelease` states it field by field) |
| Publish.CreateRelease | scripts/utils.ts:144-182 | with no failing step the forge's answer is returned. Its request has title and tag equal to the tag name and the changelog section of the package's version as body. It is a prerelease exactly when the version contains '-', and repository and owner come from the remote. Otherwise the first failure propagates when its code is not "ENOENT", and `undefined` is returned in every other case |
| ReleaseScript.Run | scripts/release.ts:11-144 | the run specification: by `ReleaseScript.RunShape`, `ReleaseScript.StopsAt`, `ReleaseScript.CompletesIffAllPublished` and `ReleaseScript.PublishStopsAtFirstFailure` the token check, then the pipeline up to the first failing step or declined question, then the publish calls up to the first without a URL |
| ReleaseScript.Release | scripts/release.ts:11-144 | the script's halt, exit code, trace and summary are those of the run specification |
| ReleaseScript.Prepare | scripts/release.ts:25-57 | the diff check, the plan check, `changeset status` and `changeset version` either end the run at the first failure, as specified, or all pass |
| ReleaseScript.CommitVersion | scripts/release.ts:59-83 | the commit question, staging and committing end the run at the first refusal or failure, or all pass |
| ReleaseScript.TagVersion | scripts/release.ts:85-97 | the tag question and `changeset tag` end the run at the first refusal or failure, or both pass |
| ReleaseScript.PushVersion | scripts/release.ts:99-112 | the push question and the push end the run at the first refusal or failure, or both pass |
| ReleaseScript.Stop | scripts/release.ts:29-117 | a step that does not pass after all earlier ones did is where the run ends |
| ReleaseScript.PublishedByCreateRelease | scripts/release.ts:124-135 | the `k`-th call of the loop yields a URL exactly when `createRelease` returns the forge's answer, whichever package it is made for, and the URL is that answer's `url` |
| ReleaseScript.PublishAll | scripts/release.ts:119-144 | the publish loop makes one `createRelease` call per entry of the classifier's list, in order. It stops with exit code 1 at the first call that yields no URL, and otherwise completes with one URL per call |
| ReleaseScript.RunShape | scripts/release.ts:11-144 | every run is well shaped: a missing token stops it before any action with exit code 1. The actions are a prefix of the fixed pipeline followed by the publish actions. Every action but the last passed, and the last is the one that stopped the run. The exit code is the halt's, and the summary is printed only for a completed run |
| ReleaseScript.StoppedShape | scripts/release.ts:25-136 | a run that stops at an action of its plan after all earlier ones passed is well shaped |
| ReleaseScript.StopsAt | scripts/release.ts:25-117 | a pipeline step that does not pass after all earlier ones did ends the run right there, and nothing later runs. The exit code is 0 for a declined commit, tag or push question and 1 for anything else |
| ReleaseScript.PreflightFailureExitsOne | scripts/release.ts:25-57 | a dirty tree, an empty plan, or a failing status or version step exits with 1 before any question is asked |
| ReleaseScript.BlankAnswersDeclineRelease | scripts/release.ts:59-117 | blank answers accept the commit, tag and push questions and decline the release question, so a run whose steps succeed exits with 1 right there |
| ReleaseScript.CompletesIffAllPublished | scripts/release.ts:119-144 | after the pipeline, the run completes exactly when every call of the loop yields a URL. The summary then lists one URL per call, in classifier order |
| ReleaseScript.PublishStopsAtFirstFailure | scripts/release.ts:121-136 | a run that does not complete after the pipeline stopped at the first call without a URL, after all earlier ones were published. It exits with 1 and prints no summary |
| ReleaseScript.RepeatedEntryFailsOnRefusal | scripts/release.ts:121-134 | a package listed twice gets two `createRelease` calls. When the forge accepts the first and refuses the second, the run fails at the second with exit 1 and no summary |
| DevRelease.RemoveQuotes | scripts/dev-release.ts:18 | removing `"` never lengthens the text and leaves no `"` |
| DevRelease.RemoveQuotesAppend | scripts/dev-release.ts:18 | quote removal works piecewise over a concatenation |
| DevRelease.RemoveQuotesKeeps | scripts/dev-release.ts:18 | a text without quotes is left as it is |
| DevRelease.RemoveQuotesIdempotent | scripts/dev-release.ts:18 | removing quotes twice is removing them once |
| DevRelease.QuotedVersion | scripts/dev-release.ts:16-18 | the JSON-quoted version npm prints comes out as the bare version |
| DevRelease.DevTag | scripts/dev-release.ts:4-18 | the tag starts with "package-a@" and ends with the commit hash, and holds no `"` in between |
| DevRelease.RemoteOf | scripts/dev-release.ts:20 | the branch's remote, or "origin" when the lookup gives none (`DevRelease.TagAndRemote` shows every remote used is this one) |
| DevRelease.Planned | scripts/dev-release.ts:14-36 | the commands of a run where none fails: by `DevRelease.AlreadyOnRemote`, `DevRelease.CreateOnlyWhenAbsent` and `DevRelease.SuccessEndsWithPushOrSkip` it stops after `ls-remote` when the remote has the tag, and creates the tag only when `git tag -l` prints nothing |
| DevRelease.DevRun | scripts/dev-release.ts:7-37 | the run specification: by `DevRelease.TokenComesFirst` no token means exit 1 before any command, a failing command ends the run with 1, and otherwise the planned commands run and the exit code is 0 |
| DevRelease.Release | scripts/dev-release.ts:7-37 | the script's exit code and trace are those of the run specification |
| DevRelease.TokenComesFirst | scripts/dev-release.ts:7-14 | without a token nothing runs and the exit code is 1. With one, the first action reads the commit hash |
| DevRelease.TagAndRemote | scripts/dev-release.ts:18-36 | every tag the run touches is the dev tag, and every remote it talks to is the branch's remote or "origin" |
| DevRelease.AlreadyOnRemote | scripts/dev-release.ts:22-28 | when the remote has the tag, the run exits with 0 right after asking, and nothing is created or pushed |
| DevRelease.CreateOnlyWhenAbsent | scripts/dev-release.ts:30-36 | a tag is created only when neither the remote nor the local repository has it. It is created at most once, right after the local check, and the push follows unless the creation fails |
| DevRelease.SuccessEndsWithPushOrSkip | scripts/dev-release.ts:22-37 | a run exiting with 0 either stopped because the remote had the tag or ended with the push. It created the tag exactly when the local check printed nothing |

## Left out

- Markdown parsing and serialisation are not modelled. The changelog is its list of top-level nodes: a heading keeps its depth and its plain text, and every other block is opaque. The returned content is the slice of nodes, not re-serialised Markdown.
- The regular-expression engine is not modelled in general. The two patterns used are written out as explicit string functions, including the backtracking of `\s+` and `[^/]+`.
- Process execution is not modelled (execa, git, pnpm, npm, `getPackages` workspace discovery, `fs.readFile`, `getReleasePlan`). Each command's outcome and printed text are inputs. The workspace packages and the `root`/workspace layout kind are inputs too.
- `getRepo`, `parseGitUrl`, `getCurrentBranch` and `getRemoteForBranch` are not modelled. The resolved repository is an input carrying owner and project. The dev-release remote is an optional input that defaults to "origin".
- `getRemote` is not exported from `utils.ts`, so the import in `dev-release.ts` would fail when the module is loaded. The model treats the remote lookup as working.
- The Octokit client and its network call are not modelled. The forge call is an outcome: the `url` of the response, or a thrown error.
- `process.env` and `process.exit` are not modelled as such. The token is an optional input, and the exit code is a value of the outcome.
- The readline prompts and all console output are not modelled. The answers are inputs.
- The readline interface of `release.ts` is never closed, so the real process may wait after its last line. The model ends a completed run with exit code 0.
- Async/await is not modelled. Every step is a synchronous call, since nothing runs concurrently.
- Changelog.Lower: lower-cases ASCII letters only, while `toLowerCase` lower-cases every letter. This does not change the level found. The only non-ASCII letters that lower-case to ASCII letters are the Kelvin sign (to "k") and the dotted capital I (to "i" followed by a combining dot), and neither can complete "major", "minor" or "patch".
- Strings are sequences of code points rather than UTF-16 units. This matters nowhere in the patterns used.
- An error thrown by `getReleasePlan` or by a command run without `reject: false` is not modelled in `release.ts`. Such an error would end the script through an unhandled rejection.
