/** The changelog section extractor: given a package's changelog, parsed
    into its top-level block nodes, and a version label, it picks out the
    nodes of that version's section and folds the highest bump level
    named by a heading. */
module Changelog {
  import opened Common

  /** A top-level block of the parsed changelog. A heading keeps its depth
      (the number of `#`) and its text as plain characters; every other
      block is kept opaque. */
  datatype Node = Heading(depth: nat, text: string) | Other(raw: string)

  /** `BumpLevels`: dep < patch < minor < major. */
  type Level = l: nat | l <= 3
  const Dep: Level := 0
  const Patch: Level := 1
  const Minor: Level := 2
  const Major: Level := 3

  function Max(a: Level, b: Level): Level {
    if a < b then b else a
  }

  /** What `getChangelogEntry` returns, with the section kept as nodes. */
  datatype ChangelogEntry = ChangelogEntry(content: seq<Node>, highestLevel: Level)

  // ---------------------------------------------------------------------
  // Bump level named by one heading

  function LowerChar(c: char): char {
    if 'A' <= c <= 'Z' then (c as int + 32) as char else c
  }

  function Lower(s: string): (r: string)
    ensures |r| == |s|
  {
    seq(|s|, i requires 0 <= i < |s| => LowerChar(s[i]))
  }

  /** The level named by a keyword that starts at index `i` of `s`. */
  function KeywordAt(s: string, i: nat): Option<Level> {
    if i + 5 <= |s| then
      if s[i..i + 5] == "major" then Some(Major)
      else if s[i..i + 5] == "minor" then Some(Minor)
      else if s[i..i + 5] == "patch" then Some(Patch)
      else None
    else None
  }

  /** The match of `/(major|minor|patch)/` searched from `from`: the keyword
      at the leftmost index where one starts. */
  function FirstKeyword(s: string, from: nat): Option<Level>
    decreases |s| - from
  {
    if from >= |s| then None
    else if KeywordAt(s, from).Some? then KeywordAt(s, from)
    else FirstKeyword(s, from + 1)
  }

  lemma {:induction false} FirstKeywordIsLeftmost(s: string, from: nat)
    ensures FirstKeyword(s, from).None? <==> forall i :: from <= i ==> KeywordAt(s, i).None?
    ensures FirstKeyword(s, from).Some? ==>
      exists i :: (from <= i < |s| && KeywordAt(s, i) == FirstKeyword(s, from)
                   && forall j :: from <= j < i ==> KeywordAt(s, j).None?)
    decreases |s| - from
  {
    if from < |s| && KeywordAt(s, from).None? {
      FirstKeywordIsLeftmost(s, from + 1);
      if FirstKeyword(s, from).None? {
        forall i | from <= i ensures KeywordAt(s, i).None? {
          if i == from {} else {}
        }
      } else {
        var i :| from + 1 <= i < |s| && KeywordAt(s, i) == FirstKeyword(s, from + 1)
                 && forall j :: from + 1 <= j < i ==> KeywordAt(s, j).None?;
        assert forall j :: from <= j < i ==> KeywordAt(s, j).None?;
      }
    } else if from >= |s| {
      assert forall i :: from <= i ==> KeywordAt(s, i).None?;
    }
  }

  /** The level a node contributes to the running maximum: the first
      keyword of a heading's lower-cased text, `Dep` for anything else. */
  function HeadingLevel(n: Node): Level {
    if n.Heading? then FirstKeyword(Lower(n.text), 0).GetOr(Dep) else Dep
  }

  /** The running maximum over `ns`, starting from `Dep`. */
  function MaxLevel(ns: seq<Node>): Level {
    if ns == [] then Dep else Max(MaxLevel(ns[..|ns| - 1]), HeadingLevel(ns[|ns| - 1]))
  }

  lemma {:induction false} MaxLevelIsMaximum(ns: seq<Node>)
    ensures forall j :: 0 <= j < |ns| ==> HeadingLevel(ns[j]) <= MaxLevel(ns)
    ensures MaxLevel(ns) == Dep || exists j :: 0 <= j < |ns| && HeadingLevel(ns[j]) == MaxLevel(ns)
  {
    if ns != [] {
      var init := ns[..|ns| - 1];
      MaxLevelIsMaximum(init);
      assert forall j :: 0 <= j < |init| ==> ns[j] == init[j];
    }
  }

  // ---------------------------------------------------------------------
  // Section boundaries

  predicate IsVersionHeading(n: Node, version: string) {
    n.Heading? && n.text == version
  }

  /** A node that ends a section whose heading has depth `depth`. */
  predicate EndsSection(n: Node, depth: nat) {
    n.Heading? && n.depth == depth
  }

  /** The first heading at or after `from` whose text is exactly `version`. */
  function FindVersion(nodes: seq<Node>, version: string, from: nat): (r: Option<nat>)
    requires from <= |nodes|
    ensures r.Some? ==> from <= r.value < |nodes| && IsVersionHeading(nodes[r.value], version)
    decreases |nodes| - from
  {
    if from == |nodes| then None
    else if IsVersionHeading(nodes[from], version) then Some(from)
    else FindVersion(nodes, version, from + 1)
  }

  /** The first heading at or after `from` whose depth is exactly `depth`. */
  function FindEnd(nodes: seq<Node>, depth: nat, from: nat): (r: Option<nat>)
    requires from <= |nodes|
    ensures r.Some? ==> from <= r.value < |nodes| && EndsSection(nodes[r.value], depth)
    decreases |nodes| - from
  {
    if from == |nodes| then None
    else if EndsSection(nodes[from], depth) then Some(from)
    else FindEnd(nodes, depth, from + 1)
  }

  /** No heading before the one `FindVersion` reports has text `version`. */
  lemma {:induction false} FindVersionIsFirst(nodes: seq<Node>, version: string, from: nat)
    requires from <= |nodes|
    ensures var r := FindVersion(nodes, version, from);
      forall j :: from <= j < (if r.Some? then r.value else |nodes|) ==> !IsVersionHeading(nodes[j], version)
    decreases |nodes| - from
  {
    if from < |nodes| && !IsVersionHeading(nodes[from], version) {
      FindVersionIsFirst(nodes, version, from + 1);
    }
  }

  /** No heading before the one `FindEnd` reports has depth `depth`. */
  lemma {:induction false} FindEndIsFirst(nodes: seq<Node>, depth: nat, from: nat)
    requires from <= |nodes|
    ensures var r := FindEnd(nodes, depth, from);
      forall j :: from <= j < (if r.Some? then r.value else |nodes|) ==> !EndsSection(nodes[j], depth)
    decreases |nodes| - from
  {
    if from < |nodes| && !EndsSection(nodes[from], depth) {
      FindEndIsFirst(nodes, depth, from + 1);
    }
  }

  /** Where the section opened by the heading at `s` stops (exclusive). */
  function SectionEnd(nodes: seq<Node>, s: nat): nat
    requires s < |nodes| && nodes[s].Heading?
  {
    FindEnd(nodes, nodes[s].depth, s + 1).GetOr(|nodes|)
  }

  /** The nodes the extractor keeps. With no heading for `version`, nothing
      is sliced off and the whole document is kept. */
  function Section(nodes: seq<Node>, version: string): seq<Node> {
    match FindVersion(nodes, version, 0)
    case None => nodes
    case Some(s) => nodes[s + 1..SectionEnd(nodes, s)]
  }

  /** How many leading nodes the scan visits: it stops right after the
      heading that ends the section. */
  function ScanLimit(nodes: seq<Node>, version: string): nat {
    match FindVersion(nodes, version, 0)
    case None => |nodes|
    case Some(s) =>
      match FindEnd(nodes, nodes[s].depth, s + 1)
      case None => |nodes|
      case Some(e) => e + 1
  }

  /** The entry `getChangelogEntry` computes. */
  function Entry(nodes: seq<Node>, version: string): ChangelogEntry {
    var limit := ScanLimit(nodes, version);
    assert limit <= |nodes|;
    ChangelogEntry(Section(nodes, version), MaxLevel(nodes[..limit]))
  }

  /** The start heading found by the scan, with its depth. */
  function StartOf(nodes: seq<Node>, version: string): Option<(nat, nat)> {
    match FindVersion(nodes, version, 0)
    case None => None
    case Some(s) => Some((s, nodes[s].depth))
  }

  /** The end heading found by the scan, if the section is closed. */
  function EndOf(nodes: seq<Node>, version: string): Option<nat> {
    match FindVersion(nodes, version, 0)
    case None => None
    case Some(s) => FindEnd(nodes, nodes[s].depth, s + 1)
  }

  /** The loop of `getChangelogEntry`: one pass over the nodes that folds
      the level, records the start heading and breaks at the end heading. */
  method ScanNodes(nodes: seq<Node>, version: string)
    returns (highestLevel: Level, headingStart: Option<(nat, nat)>, endIndex: Option<nat>)
    ensures headingStart == StartOf(nodes, version)
    ensures endIndex == EndOf(nodes, version)
    ensures highestLevel == MaxLevel(nodes[..ScanLimit(nodes, version)])
  {
    highestLevel := Dep;
    headingStart := None;
    endIndex := None;
    var i := 0;
    while i < |nodes|
      invariant 0 <= i <= |nodes|
      invariant endIndex.None?
      invariant highestLevel == MaxLevel(nodes[..i])
      invariant headingStart.None? ==> FindVersion(nodes, version, 0) == FindVersion(nodes, version, i)
      invariant headingStart.Some? ==> StartedAt(nodes, version, headingStart.value.0, headingStart.value.1, i)
    {
      var node := nodes[i];
      MaxLevelStep(nodes, i);
      if node.Heading? {
        var level := FirstKeyword(Lower(node.text), 0);
        if level.Some? {
          highestLevel := Max(level.value, highestLevel);
        }
        assert highestLevel == MaxLevel(nodes[..i + 1]);
        if headingStart.None? && node.text == version {
          headingStart := Some((i, node.depth));
          i := i + 1;
          continue;
        }
        if endIndex.None? && headingStart.Some? && headingStart.value.1 == node.depth {
          endIndex := Some(i);
          break;
        }
      }
      i := i + 1;
    }
    if endIndex.Some? {
      assert FindEnd(nodes, headingStart.value.1, endIndex.value) == endIndex;
    } else {
      assert nodes[..|nodes|] == nodes;
    }
  }

  /** `getChangelogEntry`: scan, then keep the nodes strictly between the
      start heading and the end heading (or the end of the document). */
  method GetChangelogEntry(nodes: seq<Node>, version: string) returns (entry: ChangelogEntry)
    ensures entry == Entry(nodes, version)
  {
    var highestLevel, headingStart, endIndex := ScanNodes(nodes, version);
    var children := nodes;
    if headingStart.Some? {
      children := children[headingStart.value.0 + 1..endIndex.GetOr(|children|)];
    }
    entry := ChangelogEntry(children, highestLevel);
  }

  lemma MaxLevelStep(nodes: seq<Node>, i: nat)
    requires i < |nodes|
    ensures MaxLevel(nodes[..i + 1]) == Max(MaxLevel(nodes[..i]), HeadingLevel(nodes[i]))
  {
    assert nodes[..i + 1][..i] == nodes[..i];
  }

  /** Loop state of the extractor once the start heading is known: it sits
      at `s` with depth `d`, and no end heading lies in `s + 1..i`. */
  ghost predicate StartedAt(nodes: seq<Node>, version: string, s: nat, d: nat, i: nat) {
    s < i <= |nodes| && FindVersion(nodes, version, 0) == Some(s) && d == nodes[s].depth
    && FindEnd(nodes, d, s + 1) == FindEnd(nodes, d, i)
  }

  // ---------------------------------------------------------------------
  // Properties of the extractor

  /** The section is exactly the nodes strictly after the first heading
      whose text is `version`, up to the next heading of the same depth or
      the end of the document; headings of other depths stay inside. */
  lemma SectionIsBetweenHeadings(nodes: seq<Node>, version: string, s: nat)
    requires FindVersion(nodes, version, 0) == Some(s)
    ensures forall j :: 0 <= j < s ==> !IsVersionHeading(nodes[j], version)
    ensures var e := SectionEnd(nodes, s);
      s < e <= |nodes|
      && Entry(nodes, version).content == nodes[s + 1..e]
      && (e == |nodes| || EndsSection(nodes[e], nodes[s].depth))
      && forall j :: s < j < e ==> !EndsSection(nodes[j], nodes[s].depth)
  {
    FindVersionIsFirst(nodes, version, 0);
    FindEndIsFirst(nodes, nodes[s].depth, s + 1);
    var e := SectionEnd(nodes, s);
    assert s < e <= |nodes| && Entry(nodes, version).content == nodes[s + 1..e];
    assert e == |nodes| || EndsSection(nodes[e], nodes[s].depth);
    assert forall j :: s < j < e ==> !EndsSection(nodes[j], nodes[s].depth);
  }

  /** Conversely, any start and end that satisfy that description are the
      ones the extractor uses. */
  lemma SectionFromBoundaries(nodes: seq<Node>, version: string, s: nat, e: nat)
    requires s < e <= |nodes| && IsVersionHeading(nodes[s], version)
    requires forall j :: 0 <= j < s ==> !IsVersionHeading(nodes[j], version)
    requires forall j :: s < j < e ==> !EndsSection(nodes[j], nodes[s].depth)
    requires e == |nodes| || EndsSection(nodes[e], nodes[s].depth)
    ensures Entry(nodes, version).content == nodes[s + 1..e]
  {
    FindVersionIsFirst(nodes, version, 0);
    FindEndIsFirst(nodes, nodes[s].depth, s + 1);
    var found := FindVersion(nodes, version, 0);
    assert found == Some(s);
    var end := FindEnd(nodes, nodes[s].depth, s + 1);
    if end.Some? {
      assert end.value == e;
    } else {
      assert e == |nodes|;
    }
  }

  /** With no heading equal to `version`, the whole document comes back and
      every heading is scanned. */
  lemma WholeDocumentWithoutVersion(nodes: seq<Node>, version: string)
    requires forall j :: 0 <= j < |nodes| ==> !IsVersionHeading(nodes[j], version)
    ensures Entry(nodes, version) == ChangelogEntry(nodes, MaxLevel(nodes))
  {
    assert FindVersion(nodes, version, 0).None?;
    assert nodes[..|nodes|] == nodes;
  }

  /** The level is the maximum of `Dep` and the levels of the headings
      scanned, which are the nodes up to and including the end heading. */
  lemma HighestLevelIsMaximum(nodes: seq<Node>, version: string)
    ensures ScanLimit(nodes, version) <= |nodes|
    ensures forall j :: 0 <= j < ScanLimit(nodes, version) ==>
      HeadingLevel(nodes[j]) <= Entry(nodes, version).highestLevel
    ensures Entry(nodes, version).highestLevel == Dep
      || exists j :: (0 <= j < ScanLimit(nodes, version)
                      && HeadingLevel(nodes[j]) == Entry(nodes, version).highestLevel)
  {
    var limit := ScanLimit(nodes, version);
    var scanned := nodes[..limit];
    MaxLevelIsMaximum(scanned);
    assert forall j :: 0 <= j < limit ==> scanned[j] == nodes[j];
  }

  lemma {:induction false} FindVersionPrefix(nodes: seq<Node>, tail: seq<Node>, version: string, from: nat)
    requires from <= |nodes| && FindVersion(nodes, version, from).Some?
    ensures FindVersion(nodes + tail, version, from) == FindVersion(nodes, version, from)
    decreases |nodes| - from
  {
    if !IsVersionHeading(nodes[from], version) {
      FindVersionPrefix(nodes, tail, version, from + 1);
    }
  }

  lemma {:induction false} FindEndPrefix(nodes: seq<Node>, tail: seq<Node>, depth: nat, from: nat)
    requires from <= |nodes| && FindEnd(nodes, depth, from).Some?
    ensures FindEnd(nodes + tail, depth, from) == FindEnd(nodes, depth, from)
    decreases |nodes| - from
  {
    if !EndsSection(nodes[from], depth) {
      FindEndPrefix(nodes, tail, depth, from + 1);
    }
  }

  /** Once the section is closed by a heading, nothing after that heading
      matters: neither the body nor the level changes when more nodes
      follow. */
  lemma LaterNodesIgnored(nodes: seq<Node>, tail: seq<Node>, version: string)
    requires FindVersion(nodes, version, 0).Some?
    requires FindEnd(nodes, nodes[FindVersion(nodes, version, 0).value].depth,
                     FindVersion(nodes, version, 0).value + 1).Some?
    ensures Entry(nodes + tail, version) == Entry(nodes, version)
  {
    var s := FindVersion(nodes, version, 0).value;
    FindVersionPrefix(nodes, tail, version, 0);
    FindEndPrefix(nodes, tail, nodes[s].depth, s + 1);
    var e := FindEnd(nodes, nodes[s].depth, s + 1).value;
    assert (nodes + tail)[s + 1..e] == nodes[s + 1..e];
    assert (nodes + tail)[..e + 1] == nodes[..e + 1];
  }

  /** The level does not cover the whole document: a "Major Changes"
      heading placed after the end of the section is not counted. */
  lemma LevelStopsAtSectionEnd()
    ensures Entry([Heading(2, "1.1.0"), Other("fix"), Heading(2, "1.0.0"), Heading(3, "Major Changes")],
                  "1.1.0")
         == ChangelogEntry([Other("fix")], Dep)
  {
    var nodes := [Heading(2, "1.1.0"), Other("fix"), Heading(2, "1.0.0"), Heading(3, "Major Changes")];
    assert FindVersion(nodes, "1.1.0", 0) == Some(0);
    assert FindEnd(nodes, 2, 1) == Some(2);
    assert nodes[..3] == [Heading(2, "1.1.0"), Other("fix"), Heading(2, "1.0.0")];
    assert Lower("1.1.0") == "1.1.0";
    assert Lower("1.0.0") == "1.0.0";
    assert "1.1.0"[0..5][0] == '1';
    assert "1.0.0"[0..5][0] == '1';
    assert forall i :: 0 <= i ==> KeywordAt("1.1.0", i).None?;
    assert forall i :: 0 <= i ==> KeywordAt("1.0.0", i).None?;
    FirstKeywordIsLeftmost("1.1.0", 0);
    FirstKeywordIsLeftmost("1.0.0", 0);
    assert HeadingLevel(nodes[0]) == Dep;
    assert HeadingLevel(nodes[1]) == Dep;
    assert HeadingLevel(nodes[2]) == Dep;
    assert nodes[..3][..2] == nodes[..2] && nodes[..2][..1] == nodes[..1] && nodes[..1][..0] == [];
    assert MaxLevel(nodes[..1]) == Dep;
    assert MaxLevel(nodes[..2]) == Dep;
    assert MaxLevel(nodes[..3]) == Dep;
    assert ScanLimit(nodes, "1.1.0") == 3;
  }
}
