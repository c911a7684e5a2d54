/** The answer rule of `yesNoQuestion`: the typed answer is trimmed, an
    empty answer stands for the default, and otherwise only "Y" and "y"
    mean yes. */
module Prompt {
  import opened Common

  /** The start of the run of white space that ends at `upTo`: the smallest
      index `k <= upTo` such that everything in `[k, upTo)` is white space. */
  function SkipSpacesBack(s: string, upTo: nat): (k: nat)
    requires upTo <= |s|
    ensures k <= upTo
    ensures forall j :: k <= j < upTo ==> IsSpace(s[j])
    ensures k > 0 ==> !IsSpace(s[k - 1])
  {
    if upTo == 0 || !IsSpace(s[upTo - 1]) then upTo else SkipSpacesBack(s, upTo - 1)
  }

  /** `String.prototype.trim`. */
  function Trim(s: string): string {
    var a := SkipSpaces(s, 0);
    var b := SkipSpacesBack(s, |s|);
    if a < b then s[a..b] else ""
  }

  /** A string that trimming leaves as it is: empty, or starting and ending
      with a character that is not white space. */
  predicate Trimmed(s: string) {
    s == "" || (!IsSpace(s[0]) && !IsSpace(s[|s| - 1]))
  }

  /** Trimming removes white space on both sides and nothing else: the
      input is some white space, then the trimmed text, then white space. */
  lemma TrimSplits(s: string)
    ensures Trimmed(Trim(s))
    ensures exists pre, post :: AllSpace(pre) && AllSpace(post) && s == pre + Trim(s) + post
  {
    var pre, post := TrimPadding(s);
  }

  /** The white space `Trim` removes before and after the text it keeps. */
  lemma TrimPadding(s: string) returns (pre: string, post: string)
    ensures Trimmed(Trim(s))
    ensures AllSpace(pre) && AllSpace(post) && s == pre + Trim(s) + post
  {
    var a := SkipSpaces(s, 0);
    var b := SkipSpacesBack(s, |s|);
    if a < b {
      SplitAround(s, a, b);
      pre, post := s[..a], s[b..];
    } else {
      assert AllSpace(s);
      pre, post := s, "";
      assert s == pre + "" + post;
    }
  }

  /** Cutting `s` at `a` and `b`, with white space before `a` and from `b`
      on, gives white space, the middle, and white space. */
  lemma SplitAround(s: string, a: nat, b: nat)
    requires a <= b <= |s|
    requires forall j :: 0 <= j < a ==> IsSpace(s[j])
    requires forall j :: b <= j < |s| ==> IsSpace(s[j])
    ensures AllSpace(s[..a]) && AllSpace(s[b..]) && s == s[..a] + s[a..b] + s[b..]
  {
    assert forall j :: 0 <= j < |s| - b ==> s[b..][j] == s[b + j];
  }

  /** `SkipSpaces` over white space followed by a trimmed text stops at the
      text. */
  lemma {:induction false} SkipPadding(pre: string, rest: string, from: nat)
    requires from <= |pre| && AllSpace(pre)
    requires rest == "" || !IsSpace(rest[0])
    ensures SkipSpaces(pre + rest, from) == |pre|
    decreases |pre| - from
  {
    var s := pre + rest;
    if from < |pre| {
      assert s[from] == pre[from];
      SkipPadding(pre, rest, from + 1);
    } else if rest != [] {
      assert s[from] == rest[0];
    }
  }

  /** `SkipSpacesBack` over a trimmed text followed by white space stops at
      the end of the text. */
  lemma {:induction false} SkipPaddingBack(rest: string, post: string, upTo: nat)
    requires |rest| <= upTo <= |rest| + |post| && AllSpace(post)
    requires rest == "" || !IsSpace(rest[|rest| - 1])
    ensures SkipSpacesBack(rest + post, upTo) == |rest|
    decreases upTo
  {
    var s := rest + post;
    if |rest| < upTo {
      assert s[upTo - 1] == post[upTo - 1 - |rest|];
      SkipPaddingBack(rest, post, upTo - 1);
    } else if rest != [] {
      assert s[upTo - 1] == rest[|rest| - 1];
    }
  }

  /** Trimming a trimmed text padded with white space on both sides gives
      back exactly that text. */
  lemma TrimOfPadded(pre: string, mid: string, post: string)
    requires AllSpace(pre) && AllSpace(post) && Trimmed(mid)
    ensures Trim(pre + mid + post) == mid
  {
    var s := pre + mid + post;
    if mid == "" {
      assert s == pre + post;
      assert AllSpace(s);
      assert SkipSpaces(s, 0) == |s|;
    } else {
      assert s == pre + (mid + post);
      SkipPadding(pre, mid + post, 0);
      assert s == (pre + mid) + post;
      SkipPaddingBack(pre + mid, post, |s|);
      assert s[|pre|..|pre| + |mid|] == mid;
    }
  }

  /** `yesNoQuestion`'s result for the raw answer typed at the prompt;
      `None` is a call that passes no default, which then is false. */
  function YesNo(answer: string, defaultAnswer: Option<bool>): bool {
    var t := Trim(answer);
    if t == "" then defaultAnswer.GetOr(false) else t == "Y" || t == "y"
  }

  /** An answer of white space only yields the default, and `false` when
      the caller gave none. */
  lemma BlankAnswerYieldsDefault(answer: string, defaultAnswer: Option<bool>)
    requires AllSpace(answer)
    ensures YesNo(answer, defaultAnswer) == (defaultAnswer.Some? && defaultAnswer.value)
  {
    TrimOfPadded(answer, "", "");
    assert answer + "" + "" == answer;
  }

  /** An answer with some text yields true exactly when that text, with
      the surrounding white space removed, is "Y" or "y"; the default plays
      no part. */
  lemma TextAnswerIgnoresDefault(pre: string, text: string, post: string, defaultAnswer: Option<bool>)
    requires AllSpace(pre) && AllSpace(post) && Trimmed(text) && text != ""
    ensures YesNo(pre + text + post, defaultAnswer) <==> text == "Y" || text == "y"
  {
    TrimOfPadded(pre, text, post);
  }
}
