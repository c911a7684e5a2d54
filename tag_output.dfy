/** The tag-output classifier: reads the text printed by the changeset
    tool's tagging step and decides which workspace packages were tagged. */
module TagOutput {
  import opened Common

  // ---------------------------------------------------------------------
  // Lines of the output: `String.prototype.split("\n")`

  function SplitLines(s: string): (lines: seq<string>)
    ensures |lines| >= 1
    decreases |s|
  {
    var k := IndexOf(s, '\n', 0);
    if k == |s| then [s] else [s[..k]] + SplitLines(s[k + 1..])
  }

  function JoinLines(lines: seq<string>): string {
    if |lines| == 0 then ""
    else if |lines| == 1 then lines[0]
    else lines[0] + "\n" + JoinLines(lines[1..])
  }

  /** Splitting loses nothing: joining the lines back gives the output. */
  lemma {:induction false} SplitLinesRoundTrip(s: string)
    ensures JoinLines(SplitLines(s)) == s
    decreases |s|
  {
    var k := IndexOf(s, '\n', 0);
    if k < |s| {
      var rest := s[k + 1..];
      SplitLinesRoundTrip(rest);
      JoinCons(s[..k], SplitLines(rest));
      CutAt(s, k);
    }
  }

  lemma JoinCons(line: string, lines: seq<string>)
    requires |lines| >= 1
    ensures JoinLines([line] + lines) == line + "\n" + JoinLines(lines)
  {
    assert ([line] + lines)[1..] == lines;
  }

  lemma CutAt(s: string, k: nat)
    requires k < |s|
    ensures s == s[..k] + [s[k]] + s[k + 1..]
  {
  }

  /** No line of the split holds a line feed. */
  lemma {:induction false} SplitLinesHaveNoLineFeed(s: string)
    ensures forall k :: 0 <= k < |SplitLines(s)| ==> '\n' !in SplitLines(s)[k]
    decreases |s|
  {
    var k := IndexOf(s, '\n', 0);
    if k < |s| {
      var rest := s[k + 1..];
      SplitLinesHaveNoLineFeed(rest);
      assert SplitLines(s) == [s[..k]] + SplitLines(rest);
      assert '\n' !in s[..k];
    } else {
      assert '\n' !in s;
    }
  }

  /** And the other way round: lines without line feeds are split back
      into exactly themselves. */
  lemma {:induction false} JoinLinesRoundTrip(lines: seq<string>)
    requires |lines| >= 1
    requires forall k :: 0 <= k < |lines| ==> '\n' !in lines[k]
    ensures SplitLines(JoinLines(lines)) == lines
  {
    var s := JoinLines(lines);
    if |lines| == 1 {
      assert IndexOf(s, '\n', 0) == |s|;
    } else {
      var rest := JoinLines(lines[1..]);
      JoinLinesRoundTrip(lines[1..]);
      assert s == lines[0] + "\n" + rest;
      assert s[|lines[0]|] == '\n';
      assert forall j :: 0 <= j < |lines[0]| ==> s[j] == lines[0][j];
      assert IndexOf(s, '\n', 0) == |lines[0]|;
      assert s[..|lines[0]|] == lines[0];
      assert s[|lines[0]| + 1..] == rest;
    }
  }

  // ---------------------------------------------------------------------
  // The line matcher for `/New tag:\s+(@[^/]+\/[^@]+|[^/]+)@([^\s]+)/`

  const Marker: string := "New tag:"

  predicate MarkerAt(line: string, i: nat) {
    i + |Marker| <= |line| && line[i..i + |Marker|] == Marker
  }

  /** The first alternative, `@[^/]+\/[^@]+`, followed by `@` and one
      non-space character, tried at `g`: the index of the `@` that ends
      the name. The scope runs to the first `/`, the name to the next `@`. */
  function ScopedAt(line: string, g: nat): (r: Option<nat>)
    requires g <= |line|
    ensures r.Some? ==> g < r.value && r.value + 1 < |line| && line[r.value] == '@' && !IsSpace(line[r.value + 1])
  {
    if g < |line| && line[g] == '@' then
      var slash := IndexOf(line, '/', g + 1);
      if g + 1 < slash < |line| then
        var at := IndexOf(line, '@', slash + 1);
        if slash + 1 < at && at + 1 < |line| && !IsSpace(line[at + 1]) then Some(at) else None
      else None
    else None
  }

  /** The last `@` strictly inside `(g, hi)` that is followed by a
      non-space character: where greedy `[^/]+` backtracks to. */
  function LastSplit(line: string, g: nat, hi: nat): (r: Option<nat>)
    requires hi <= |line|
    ensures r.Some? ==> g < r.value < hi && r.value + 1 < |line| && line[r.value] == '@' && !IsSpace(line[r.value + 1])
    decreases hi
  {
    if hi <= g + 1 then None
    else if line[hi - 1] == '@' && hi < |line| && !IsSpace(line[hi]) then Some(hi - 1)
    else LastSplit(line, g, hi - 1)
  }

  /** The second alternative, `[^/]+`, followed by `@` and one non-space
      character, tried at `g`: the name is split at the last such `@`
      before the first `/`. */
  function UnscopedAt(line: string, g: nat): (r: Option<nat>)
    requires g <= |line|
    ensures r.Some? ==> g < r.value && r.value + 1 < |line| && line[r.value] == '@' && !IsSpace(line[r.value + 1])
  {
    LastSplit(line, g, IndexOf(line, '/', g))
  }

  /** The capture group tried at `g`, first alternative first. */
  function GroupAt(line: string, g: nat): (r: Option<nat>)
    requires g <= |line|
    ensures r.Some? ==> g < r.value && r.value + 1 < |line| && line[r.value] == '@' && !IsSpace(line[r.value + 1])
  {
    match ScopedAt(line, g)
    case Some(p) => Some(p)
    case None => UnscopedAt(line, g)
  }

  /** `\s+` backtracking: the group is tried at `g`, then one character
      earlier, down to just after `j`, where the white space starts. */
  function TryGroups(line: string, j: nat, g: nat): (r: Option<(nat, nat)>)
    requires g <= |line|
    ensures r.Some? ==> j < r.value.0 <= g && GroupAt(line, r.value.0) == Some(r.value.1)
    decreases g
  {
    if g <= j then None
    else
      match GroupAt(line, g)
      case Some(p) => Some((g, p))
      case None => TryGroups(line, j, g - 1)
  }

  /** The regular-expression search from index `i`: the first index where
      the marker starts and the rest of the pattern matches. */
  function MatchFrom(line: string, i: nat): Option<string>
    requires i <= |line|
    decreases |line| - i
  {
    if i + |Marker| > |line| then None
    else if MarkerAt(line, i) then
      var j := i + |Marker|;
      match TryGroups(line, j, SkipSpaces(line, j))
      case Some(gp) => Some(line[gp.0..gp.1])
      case None => MatchFrom(line, i + 1)
    else MatchFrom(line, i + 1)
  }

  /** The package name captured from one line, if the line matches. */
  function MatchLine(line: string): Option<string> {
    MatchFrom(line, 0)
  }

  // ---------------------------------------------------------------------
  // What a match is, stated without the search

  /** `@scope/name`: a scope without `/`, then a name without `@`. */
  ghost predicate ScopeSlash(name: string, k: int) {
    1 < k < |name| - 1 && name[k] == '/'
    && (forall j :: 1 <= j < k ==> name[j] != '/')
    && (forall j :: k < j < |name| ==> name[j] != '@')
  }

  ghost predicate ScopedName(name: string) {
    |name| > 0 && name[0] == '@' && exists k :: ScopeSlash(name, k)
  }

  ghost predicate UnscopedName(name: string) {
    |name| > 0 && forall j :: 0 <= j < |name| ==> name[j] != '/'
  }

  /** The marker at `i`, white space up to `g`, a name in `g..p`, an `@`
      at `p` and a non-space character after it. */
  ghost predicate MatchesAt(line: string, i: nat, g: nat, p: nat) {
    MarkerAt(line, i) && i + |Marker| < g < p && p + 1 < |line|
    && (forall j :: i + |Marker| <= j < g ==> IsSpace(line[j]))
    && line[p] == '@' && !IsSpace(line[p + 1])
    && (ScopedName(line[g..p]) || UnscopedName(line[g..p]))
  }

  lemma GroupAtSound(line: string, g: nat)
    requires g <= |line| && GroupAt(line, g).Some?
    ensures ScopedName(line[g..GroupAt(line, g).value]) || UnscopedName(line[g..GroupAt(line, g).value])
  {
    var p := GroupAt(line, g).value;
    var name := line[g..p];
    if ScopedAt(line, g).Some? {
      var slash := IndexOf(line, '/', g + 1);
      assert ScopeSlash(name, slash - g);
    } else {
      var f := IndexOf(line, '/', g);
      assert p < f;
      assert forall j :: 0 <= j < |name| ==> name[j] == line[g + j];
    }
  }

  lemma {:induction false} LastSplitComplete(line: string, g: nat, hi: nat, p: nat)
    requires hi <= |line| && g < p < hi
    requires line[p] == '@' && p + 1 < |line| && !IsSpace(line[p + 1])
    ensures LastSplit(line, g, hi).Some?
    decreases hi
  {
    if p < hi - 1 && !(line[hi - 1] == '@' && hi < |line| && !IsSpace(line[hi])) {
      LastSplitComplete(line, g, hi - 1, p);
    }
  }

  /** The first alternative finds exactly the `@` that ends a scoped name. */
  lemma ScopedAtFinds(line: string, g: nat, p: nat)
    requires g < p && p + 1 < |line| && line[p] == '@' && !IsSpace(line[p + 1])
    requires ScopedName(line[g..p])
    ensures ScopedAt(line, g) == Some(p)
  {
    var name := line[g..p];
    var k :| ScopeSlash(name, k);
    assert line[g + k] == '/';
    var slash := IndexOf(line, '/', g + 1);
    assert slash == g + k;
    var at := IndexOf(line, '@', slash + 1);
    assert at == p;
  }

  lemma GroupAtComplete(line: string, g: nat, p: nat)
    requires g < p && p + 1 < |line| && line[p] == '@' && !IsSpace(line[p + 1])
    requires ScopedName(line[g..p]) || UnscopedName(line[g..p])
    ensures GroupAt(line, g).Some?
  {
    if ScopedName(line[g..p]) {
      ScopedAtFinds(line, g, p);
    } else if ScopedAt(line, g).None? {
      var f := IndexOf(line, '/', g);
      LastSplitComplete(line, g, f, p);
    }
  }

  lemma {:induction false} TryGroupsComplete(line: string, j: nat, g: nat, g0: nat)
    requires g <= |line| && j < g0 <= g && GroupAt(line, g0).Some?
    ensures TryGroups(line, j, g).Some?
    decreases g
  {
    if g0 < g && GroupAt(line, g).None? {
      TryGroupsComplete(line, j, g - 1, g0);
    }
  }

  /** At a marker, the group search succeeds exactly when some white space,
      name and version follow it, and what it finds is such a match. */
  lemma MatchAtMarker(line: string, i: nat)
    requires MarkerAt(line, i)
    ensures var j := i + |Marker|;
      var r := TryGroups(line, j, SkipSpaces(line, j));
      (r.Some? ==> MatchesAt(line, i, r.value.0, r.value.1))
      && (r.None? ==> forall g, p :: !MatchesAt(line, i, g, p))
  {
    var j := i + |Marker|;
    var k := SkipSpaces(line, j);
    var r := TryGroups(line, j, k);
    if r.Some? {
      GroupAtSound(line, r.value.0);
    } else {
      forall g, p ensures !MatchesAt(line, i, g, p) {
        if MatchesAt(line, i, g, p) {
          GroupAtComplete(line, g, p);
          TryGroupsComplete(line, j, k, g);
        }
      }
    }
  }

  /** No match starts anywhere in `lo..hi`. */
  ghost predicate NoMatchIn(line: string, lo: nat, hi: nat) {
    forall i: nat, g: nat, p: nat :: lo <= i < hi ==> !MatchesAt(line, i, g, p)
  }

  lemma NoMatchAt(line: string, i: nat)
    requires i + |Marker| <= |line|
    requires !(MarkerAt(line, i) && TryGroups(line, i + |Marker|, SkipSpaces(line, i + |Marker|)).Some?)
    ensures forall g: nat, p: nat :: !MatchesAt(line, i, g, p)
  {
    if MarkerAt(line, i) {
      MatchAtMarker(line, i);
    }
  }

  lemma NoMatchExtend(line: string, lo: nat, hi: nat)
    requires lo < hi && NoMatchIn(line, lo + 1, hi)
    requires forall g: nat, p: nat :: !MatchesAt(line, lo, g, p)
    ensures NoMatchIn(line, lo, hi)
  {
  }

  /** The matcher returns nothing only when no match exists at all. */
  lemma {:induction false} MatchFromNone(line: string, i: nat)
    requires i <= |line| && MatchFrom(line, i).None?
    ensures NoMatchIn(line, i, |line| + 1)
    decreases |line| - i
  {
    if i + |Marker| <= |line| {
      NoMatchAt(line, i);
      MatchFromNone(line, i + 1);
      NoMatchExtend(line, i, |line| + 1);
    }
  }

  /** The matcher returns the name of the leftmost match. */
  lemma {:induction false} MatchFromLeftmost(line: string, i: nat) returns (i': nat, g: nat, p: nat)
    requires i <= |line| && MatchFrom(line, i).Some?
    ensures i <= i' && MatchesAt(line, i', g, p) && MatchFrom(line, i) == Some(line[g..p])
    ensures NoMatchIn(line, i, i')
    decreases |line| - i
  {
    var j := i + |Marker|;
    if MarkerAt(line, i) && TryGroups(line, j, SkipSpaces(line, j)).Some? {
      MatchAtMarker(line, i);
      var gp := TryGroups(line, j, SkipSpaces(line, j)).value;
      i', g, p := i, gp.0, gp.1;
    } else {
      NoMatchAt(line, i);
      i', g, p := MatchFromLeftmost(line, i + 1);
      NoMatchExtend(line, i, i');
    }
  }

  lemma {:induction false} MatchFromSkips(line: string, i: nat, m: nat)
    requires i <= m <= |line| && m + |Marker| <= |line|
    requires forall i' :: i <= i' < m ==> !MarkerAt(line, i')
    ensures MatchFrom(line, i) == MatchFrom(line, m)
    decreases m - i
  {
    if i < m {
      MatchFromSkips(line, i + 1, m);
    }
  }

  lemma {:induction false} LastSplitFinds(line: string, g: nat, hi: nat, p: nat)
    requires hi <= |line| && g < p < hi
    requires line[p] == '@' && p + 1 < |line| && !IsSpace(line[p + 1])
    requires forall q :: p < q < hi ==> line[q] != '@'
    ensures LastSplit(line, g, hi) == Some(p)
    decreases hi
  {
    if p < hi - 1 {
      LastSplitFinds(line, g, hi - 1, p);
    }
  }

  /** A name without `/` followed by `@` and a tail without `@` or `/` is
      captured whole by the second alternative. */
  lemma UnscopedAtFinds(line: string, g: nat, p: nat)
    requires g < p && p + 1 < |line| && line[p] == '@' && !IsSpace(line[p + 1])
    requires UnscopedName(line[g..p])
    requires forall q :: p < q < |line| ==> line[q] != '@' && line[q] != '/'
    ensures GroupAt(line, g) == Some(p)
  {
    assert forall q :: g <= q < p ==> line[q] == line[g..p][q - g];
    var f := IndexOf(line, '/', g);
    assert f == |line|;
    LastSplitFinds(line, g, f, p);
  }

  /** A line whose first marker is followed by white space, a name and
      `@version` yields that name. */
  lemma FirstMarkerYieldsName(line: string, m: nat, g: nat, p: nat)
    requires MarkerAt(line, m) && forall i :: 0 <= i < m ==> !MarkerAt(line, i)
    requires m + |Marker| < g < p && p + 1 < |line| && !IsSpace(line[g])
    requires forall q :: m + |Marker| <= q < g ==> IsSpace(line[q])
    requires GroupAt(line, g) == Some(p)
    ensures MatchLine(line) == Some(line[g..p])
  {
    var j := m + |Marker|;
    MatchFromSkips(line, 0, m);
    assert SkipSpaces(line, j) == g;
    assert TryGroups(line, j, g) == Some((g, p));
  }

  /** A tool output line of the usual shape, "New tag:", white space,
      `name@version`, yields exactly the name, scoped or not. */
  lemma TaggedLineYieldsName(prefix: string, spaces: string, name: string, version: string)
    requires |spaces| > 0 && AllSpace(spaces)
    requires |name| > 0 && !IsSpace(name[0]) && (ScopedName(name) || UnscopedName(name))
    requires |version| > 0
    requires forall j :: 0 <= j < |version| ==> !IsSpace(version[j]) && version[j] != '@' && version[j] != '/'
    requires forall i :: 0 <= i < |prefix| ==> !MarkerAt(prefix + Marker + spaces + name + "@" + version, i)
    ensures MatchLine(prefix + Marker + spaces + name + "@" + version) == Some(name)
  {
    var line := prefix + Marker + spaces + name + "@" + version;
    var m := |prefix|;
    var j := m + |Marker|;
    var g := j + |spaces|;
    var p := g + |name|;
    assert line[m..j] == Marker;
    assert line[g..p] == name;
    assert line[p] == '@' && line[p + 1] == version[0];
    assert forall q :: j <= q < g ==> line[q] == spaces[q - j];
    if ScopedName(name) {
      ScopedAtFinds(line, g, p);
    } else {
      assert forall q :: p < q < |line| ==> line[q] == version[q - p - 1];
      UnscopedAtFinds(line, g, p);
    }
    FirstMarkerYieldsName(line, m, g, p);
  }

  // ---------------------------------------------------------------------
  // The package registry: `new Map(packages.map(x => [name, x]))`

  /** Name to package; of two packages with the same name the later one
      stays, as with a `Map` built from pairs. */
  function Registry(packages: seq<Package>): map<string, Package> {
    if packages == [] then map[]
    else Registry(packages[..|packages| - 1])[packages[|packages| - 1].name := packages[|packages| - 1]]
  }

  lemma {:induction false} RegistryLastWins(packages: seq<Package>, name: string)
    ensures name in Registry(packages) <==> exists k :: 0 <= k < |packages| && packages[k].name == name
    ensures name in Registry(packages) ==>
      exists k :: 0 <= k < |packages| && Registry(packages)[name] == packages[k] && packages[k].name == name
        && forall k' :: k < k' < |packages| ==> packages[k'].name != name
  {
    if packages != [] {
      var init := packages[..|packages| - 1];
      RegistryLastWins(init, name);
      assert forall k :: 0 <= k < |init| ==> init[k] == packages[k];
      if packages[|packages| - 1].name != name && name in Registry(packages) {
        var k :| 0 <= k < |init| && Registry(init)[name] == init[k] && init[k].name == name
          && forall k' :: k < k' < |init| ==> init[k'].name != name;
        assert Registry(packages)[name] == packages[k];
      }
    }
  }

  // ---------------------------------------------------------------------
  // Classification

  /** `tool.type === "root"` (a single-package repository) or any other
      workspace tool. */
  datatype Layout = Root | Workspace

  datatype TaggedPackage = TaggedPackage(pkg: Package, tagName: string)

  datatype ClassifyError =
    | PackageNotFound(name: string)  // a tagged name the registry does not know
    | NoPackage                      // a root layout with no package at all

  /** The captured names of the matching lines, in line order. */
  function MatchedNames(lines: seq<string>): seq<string> {
    if lines == [] then []
    else
      var last := lines[|lines| - 1];
      MatchedNames(lines[..|lines| - 1]) + (match MatchLine(last) case Some(n) => [n] case None => [])
  }

  /** One name per matching line: the names of two outputs put together
      are the names of each, in order. */
  lemma {:induction false} MatchedNamesAppend(a: seq<string>, b: seq<string>)
    ensures MatchedNames(a + b) == MatchedNames(a) + MatchedNames(b)
    decreases |b|
  {
    if b != [] {
      var init := b[..|b| - 1];
      MatchedNamesAppend(a, init);
      assert (a + b)[..|a + b| - 1] == a + init;
    } else {
      assert a + b == a;
    }
  }

  /** The tags of the workspace layout: the registry's package for each
      captured name, or the first name the registry does not know. */
  function WorkspaceTags(names: seq<string>, registry: map<string, Package>): Result<seq<TaggedPackage>, ClassifyError> {
    if names == [] then Ok([])
    else
      match WorkspaceTags(names[..|names| - 1], registry)
      case Err(e) => Err(e)
      case Ok(tags) =>
        var name := names[|names| - 1];
        if name in registry then
          Ok(tags + [TaggedPackage(registry[name], registry[name].name + "@" + registry[name].version)])
        else Err(PackageNotFound(name))
  }

  lemma {:induction false} WorkspaceTagsSpec(names: seq<string>, registry: map<string, Package>)
    ensures WorkspaceTags(names, registry).Ok? <==> forall k :: 0 <= k < |names| ==> names[k] in registry
    ensures WorkspaceTags(names, registry).Ok? ==>
      var tags := WorkspaceTags(names, registry).value;
      |tags| == |names|
      && forall k :: 0 <= k < |names| ==>
           tags[k] == TaggedPackage(registry[names[k]], registry[names[k]].name + "@" + registry[names[k]].version)
    ensures WorkspaceTags(names, registry).Err? ==>
      exists k :: 0 <= k < |names| && names[k] !in registry
        && WorkspaceTags(names, registry).error == PackageNotFound(names[k])
        && forall j :: 0 <= j < k ==> names[j] in registry
  {
    if names != [] {
      var init := names[..|names| - 1];
      WorkspaceTagsSpec(init, registry);
      assert forall k :: 0 <= k < |init| ==> init[k] == names[k];
    }
  }

  lemma {:induction false} WorkspaceTagsErrStays(names: seq<string>, more: seq<string>, registry: map<string, Package>)
    requires WorkspaceTags(names, registry).Err?
    ensures WorkspaceTags(names + more, registry) == WorkspaceTags(names, registry)
    decreases |more|
  {
    if more != [] {
      WorkspaceTagsErrStays(names, more[..|more| - 1], registry);
      assert (names + more)[..|names + more| - 1] == names + more[..|more| - 1];
    } else {
      assert names + more == names;
    }
  }

  /** `/New tag:/` searched from `from`. */
  predicate HasMarkerFrom(line: string, from: nat)
    decreases |line| - from
  {
    if from + |Marker| > |line| then false else MarkerAt(line, from) || HasMarkerFrom(line, from + 1)
  }

  /** Whether the line matches `/New tag:/`. */
  predicate HasMarker(line: string) {
    HasMarkerFrom(line, 0)
  }

  lemma {:induction false} HasMarkerSpec(line: string, from: nat)
    ensures HasMarkerFrom(line, from) <==> exists i :: from <= i && MarkerAt(line, i)
    decreases |line| - from
  {
    if from + |Marker| <= |line| {
      HasMarkerSpec(line, from + 1);
      if !MarkerAt(line, from) && (exists i :: from <= i && MarkerAt(line, i)) {
        var i :| from <= i && MarkerAt(line, i);
        assert from + 1 <= i;
      }
    }
  }

  /** The first line at or after `from` that holds the marker, or `|lines|`. */
  function FirstMarked(lines: seq<string>, from: nat): (k: nat)
    requires from <= |lines|
    ensures from <= k <= |lines|
    ensures forall j :: from <= j < k ==> !HasMarker(lines[j])
    ensures k < |lines| ==> HasMarker(lines[k])
    decreases |lines| - from
  {
    if from == |lines| || HasMarker(lines[from]) then from else FirstMarked(lines, from + 1)
  }

  /** What `determinePackagesToRelease` returns for a tagging output. */
  function Classification(output: string, packages: seq<Package>, layout: Layout): Result<seq<TaggedPackage>, ClassifyError> {
    var lines := SplitLines(output);
    match layout
    case Workspace => WorkspaceTags(MatchedNames(lines), Registry(packages))
    case Root =>
      if packages == [] then Err(NoPackage)
      else if FirstMarked(lines, 0) < |lines| then
        Ok([TaggedPackage(packages[0], "v" + packages[0].version)])
      else Ok([])
  }

  /** `determinePackagesToRelease`, with the registry and the layout given
      as inputs instead of discovered from the working directory. */
  method DeterminePackagesToRelease(output: string, packages: seq<Package>, layout: Layout)
    returns (result: Result<seq<TaggedPackage>, ClassifyError>)
    ensures result == Classification(output, packages, layout)
  {
    var lines := SplitLines(output);
    var packagesToRelease: seq<TaggedPackage> := [];
    if layout != Root {
      var packagesByName := Registry(packages);
      var i := 0;
      while i < |lines|
        invariant 0 <= i <= |lines|
        invariant WorkspaceTags(MatchedNames(lines[..i]), packagesByName) == Ok(packagesToRelease)
      {
        var line := lines[i];
        ghost var names := MatchedNames(lines[..i]);
        assert lines[..i + 1][..i] == lines[..i];
        var match_ := MatchLine(line);
        if match_.None? {
          assert MatchedNames(lines[..i + 1]) == names;
          i := i + 1;
          continue;
        }
        var pkgName := match_.value;
        assert MatchedNames(lines[..i + 1]) == names + [pkgName];
        assert (names + [pkgName])[..|names|] == names;
        if pkgName !in packagesByName {
          MatchedNamesAppend(lines[..i + 1], lines[i + 1..]);
          assert lines[..i + 1] + lines[i + 1..] == lines;
          WorkspaceTagsErrStays(MatchedNames(lines[..i + 1]), MatchedNames(lines[i + 1..]), packagesByName);
          return Err(PackageNotFound(pkgName));
        }
        var pkg := packagesByName[pkgName];
        packagesToRelease := packagesToRelease + [TaggedPackage(pkg, pkg.name + "@" + pkg.version)];
        i := i + 1;
      }
      assert lines[..|lines|] == lines;
      assert Classification(output, packages, layout) == Ok(packagesToRelease);
    } else {
      if |packages| == 0 {
        assert Classification(output, packages, layout) == Err(NoPackage);
        return Err(NoPackage);
      }
      var pkg := packages[0];
      var i := 0;
      while i < |lines|
        invariant 0 <= i <= |lines|
        invariant packagesToRelease == []
        invariant forall k :: 0 <= k < i ==> !HasMarker(lines[k])
      {
        if HasMarker(lines[i]) {
          assert FirstMarked(lines, 0) == i;
          packagesToRelease := packagesToRelease + [TaggedPackage(pkg, "v" + pkg.version)];
          assert packagesToRelease == [TaggedPackage(packages[0], "v" + packages[0].version)];
          assert FirstMarked(SplitLines(output), 0) < |SplitLines(output)|;
          assert Classification(output, packages, Root) == Ok(packagesToRelease);
          break;
        }
        i := i + 1;
      }
      if packagesToRelease == [] {
        assert FirstMarked(SplitLines(output), 0) == |SplitLines(output)|;
        assert Classification(output, packages, Root) == Ok([]);
      }
    }
    result := Ok(packagesToRelease);
  }

  // ---------------------------------------------------------------------
  // Properties of the classifier

  /** The package names the tagging output announces, line by line. */
  function AnnouncedNames(output: string): seq<string> {
    MatchedNames(SplitLines(output))
  }

  /** Whether some workspace package has the name. */
  predicate Known(packages: seq<Package>, name: string) {
    exists q :: 0 <= q < |packages| && packages[q].name == name
  }

  /** Workspace layout: one tag per matching line, in line order, each a
      workspace package of that name with its own `name@version`; a name no
      package has makes the whole call fail with the first such name. */
  lemma WorkspaceClassification(output: string, packages: seq<Package>)
    ensures Classification(output, packages, Workspace).Ok?
      <==> forall k :: 0 <= k < |AnnouncedNames(output)| ==> Known(packages, AnnouncedNames(output)[k])
    ensures Classification(output, packages, Workspace).Ok? ==>
      var tags := Classification(output, packages, Workspace).value;
      var names := AnnouncedNames(output);
      |tags| == |names|
      && forall k :: 0 <= k < |names| ==>
           tags[k].pkg.name == names[k] && tags[k].pkg in packages
           && tags[k].tagName == names[k] + "@" + tags[k].pkg.version
    ensures Classification(output, packages, Workspace).Err? ==>
      var names := AnnouncedNames(output);
      exists k :: 0 <= k < |names| && !Known(packages, names[k])
        && Classification(output, packages, Workspace).error == PackageNotFound(names[k])
        && forall j :: 0 <= j < k ==> Known(packages, names[j])
  {
    var names := AnnouncedNames(output);
    var registry := Registry(packages);
    WorkspaceTagsSpec(names, registry);
    forall k | 0 <= k < |names|
      ensures names[k] in registry <==> Known(packages, names[k])
      ensures names[k] in registry ==> registry[names[k]].name == names[k] && registry[names[k]] in packages
    {
      RegistryLastWins(packages, names[k]);
    }
  }

  /** Root layout: no package is an error whatever the output; otherwise at
      most one tag, `v` and the first package's version, present exactly
      when some line holds the marker. */
  lemma RootClassification(output: string, packages: seq<Package>)
    ensures packages == [] <==> Classification(output, packages, Root) == Err(NoPackage)
    ensures packages != [] ==>
      Classification(output, packages, Root).Ok? && |Classification(output, packages, Root).value| <= 1
    ensures packages != [] ==>
      (|Classification(output, packages, Root).value| == 1
       <==> exists k :: 0 <= k < |SplitLines(output)| && HasMarker(SplitLines(output)[k]))
    ensures packages != [] && |Classification(output, packages, Root).value| == 1 ==>
      Classification(output, packages, Root).value[0] == TaggedPackage(packages[0], "v" + packages[0].version)
  {
    var lines := SplitLines(output);
    if packages != [] {
      var k := FirstMarked(lines, 0);
      if k < |lines| {
        assert exists j :: 0 <= j < |SplitLines(output)| && HasMarker(SplitLines(output)[j]);
      }
    }
  }
}
