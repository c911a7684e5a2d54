/** How greedy the two quantifiers of the `New tag:` pattern are: `\s+`
    takes the longest run of white space that still lets the name match,
    and `[^/]+` the longest name, so an unscoped name ends at the last
    fitting `@` before the first `/`. */
module TagGreedy {
  import opened Common
  import opened TagOutput

  /** No `@` followed by a non-space character lies between the split and
      `hi`: the split is the last one. */
  lemma {:induction false} LastSplitIsLast(line: string, g: nat, hi: nat)
    requires hi <= |line| && LastSplit(line, g, hi).Some?
    ensures forall q :: LastSplit(line, g, hi).value < q < hi ==>
      !(line[q] == '@' && q + 1 < |line| && !IsSpace(line[q + 1]))
    decreases hi
  {
    if !(line[hi - 1] == '@' && hi < |line| && !IsSpace(line[hi])) {
      LastSplitIsLast(line, g, hi - 1);
    }
  }

  /** Greedy `[^/]+`: when the first alternative fails, the second splits
      the name at the last `@` before the first `/` that is followed by a
      non-space character, so "a@1 b@2" yields "a@1 b". */
  lemma UnscopedSplitsAtLastAt(line: string, g: nat)
    requires g <= |line| && ScopedAt(line, g).None? && GroupAt(line, g).Some?
    ensures var p := GroupAt(line, g).value;
      p < IndexOf(line, '/', g)
      && forall q :: p < q < IndexOf(line, '/', g) ==> !(line[q] == '@' && q + 1 < |line| && !IsSpace(line[q + 1]))
  {
    LastSplitIsLast(line, g, IndexOf(line, '/', g));
  }

  /** Greedy `\s+`: the group is taken at the latest start that works, so
      no later start up to the end of the white space has a match. */
  lemma {:induction false} TryGroupsLongestSpace(line: string, j: nat, g: nat)
    requires g <= |line| && TryGroups(line, j, g).Some?
    ensures forall g' :: TryGroups(line, j, g).value.0 < g' <= g ==> GroupAt(line, g').None?
    decreases g
  {
    if GroupAt(line, g).None? {
      TryGroupsLongestSpace(line, j, g - 1);
    }
  }
}
