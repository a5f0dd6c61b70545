/**
 * One rule applied to a whole text, as Go's `ReplaceAllString` does with the
 * template group 1 + mask + group 3: every leftmost, non-overlapping match
 * is rewritten to its group 1, the mask and its group 3, and the search
 * resumes right after the match.
 */
module Replace {
  import opened Spans

  /**
   * A compiled pattern: given the text from the current position on, the
   * groups of the match that starts there, if any.
   */
  type Matcher = string -> Option<Groups>

  /** Every match the matcher reports lies inside the text and is not empty. */
  ghost predicate Sound(m: Matcher) {
    forall t :: m(t).Some? ==> WellFormed(t, m(t).value)
  }

  /**
   * The scan: try the rule at the current position; on a match emit
   * group 1 + mask + group 3 and continue after the match, otherwise copy one
   * character and move on.
   */
  function ReplaceAll(m: Matcher, mask: string, s: string): string
    requires Sound(m)
    decreases |s|
  {
    if s == [] then []
    else
      match m(s)
      case Some(g) => s[..g.e1] + mask + s[g.e2..g.e3] + ReplaceAll(m, mask, s[g.e3..])
      case None => [s[0]] + ReplaceAll(m, mask, s[1..])
  }

  /** The least position at or after i where rule r matches: the search Go runs before each replacement. */
  function FirstMatch(m: Matcher, s: string, i: nat): (j: Option<nat>)
    requires i <= |s|
    ensures j.Some? ==> i <= j.value <= |s| && m(s[j.value..]).Some?
    ensures j.Some? ==> forall k {:trigger m(s[k..])} :: i <= k < j.value ==> m(s[k..]).None?
    ensures j.None? ==> forall k {:trigger m(s[k..])} :: i <= k <= |s| ==> m(s[k..]).None?
    decreases |s| - i
  {
    if m(s[i..]).Some? then Some(i)
    else if i == |s| then None
    else FirstMatch(m, s, i + 1)
  }

  /**
   * The reference reading of "replace all", on positions of s from i on:
   * find the leftmost match, copy the text before it, splice in group 1 +
   * mask + group 3, and search again after the match.
   */
  function ReplaceAllLeftmost(m: Matcher, mask: string, s: string, i: nat): string
    requires Sound(m)
    requires i <= |s|
    decreases |s| - i
  {
    match FirstMatch(m, s, i)
    case None => s[i..]
    case Some(j) =>
      var g := m(s[j..]).value;
      s[i..j + g.e1] + mask + s[j + g.e2..j + g.e3] + ReplaceAllLeftmost(m, mask, s, j + g.e3)
  }

  /** The leftmost search at the match it finds first. */
  lemma LeftmostAt(m: Matcher, mask: string, s: string, i: nat, j: nat, g: Groups)
    requires Sound(m)
    requires i <= j <= |s| && FirstMatch(m, s, i) == Some(j) && m(s[j..]) == Some(g)
    ensures ReplaceAllLeftmost(m, mask, s, i) == s[i..j + g.e1] + mask + s[j + g.e2..j + g.e3] + ReplaceAllLeftmost(m, mask, s, j + g.e3)
  {
  }

  /** A position where the rule does not match is copied by the leftmost search. */
  lemma LeftmostCopies(m: Matcher, mask: string, s: string, i: nat)
    requires Sound(m)
    requires i < |s| && m(s[i..]).None?
    ensures ReplaceAllLeftmost(m, mask, s, i) == [s[i]] + ReplaceAllLeftmost(m, mask, s, i + 1)
  {
    assert FirstMatch(m, s, i) == FirstMatch(m, s, i + 1);
    match FirstMatch(m, s, i)
    case None =>
      assert [s[i]] + s[i + 1..] == s[i..];
    case Some(j) =>
      LeftmostCopiesBeforeMatch(m, mask, s, i, j, m(s[j..]).value);
  }

  lemma LeftmostCopiesBeforeMatch(m: Matcher, mask: string, s: string, i: nat, j: nat, g: Groups)
    requires Sound(m)
    requires i < j <= |s| && FirstMatch(m, s, i) == Some(j) && FirstMatch(m, s, i + 1) == Some(j) && m(s[j..]) == Some(g)
    ensures ReplaceAllLeftmost(m, mask, s, i) == [s[i]] + ReplaceAllLeftmost(m, mask, s, i + 1)
  {
    LeftmostAt(m, mask, s, i, j, g);
    LeftmostAt(m, mask, s, i + 1, j, g);
    CopyBeforeSplice(s, i, j + g.e1, mask, s[j + g.e2..j + g.e3], ReplaceAllLeftmost(m, mask, s, j + g.e3),
      ReplaceAllLeftmost(m, mask, s, i), ReplaceAllLeftmost(m, mask, s, i + 1));
  }

  /** Two texts that splice the same tail after s[i..k] and after s[i + 1..k] differ by the character s[i] in front. */
  lemma CopyBeforeSplice(s: string, i: nat, k: nat, a: string, b: string, c: string, x: string, y: string)
    requires i < k <= |s|
    requires x == s[i..k] + a + b + c && y == s[i + 1..k] + a + b + c
    ensures x == [s[i]] + y
  {
    assert [s[i]] + s[i + 1..k] == s[i..k];
  }

  /** The character-by-character scan of s[i..] and the leftmost search from i produce the same text. */
  lemma {:induction false} ScanIsLeftmostSearch(m: Matcher, mask: string, s: string, i: nat)
    requires Sound(m)
    requires i <= |s|
    ensures ReplaceAll(m, mask, s[i..]) == ReplaceAllLeftmost(m, mask, s, i)
    decreases |s| - i
  {
    if i == |s| {
      assert FirstMatch(m, s, i).None?;
    } else {
      match m(s[i..])
      case Some(g) =>
        assert 0 < g.e3 <= |s| - i;
        ScanIsLeftmostSearch(m, mask, s, i + g.e3);
        ScanAtMatch(m, mask, s, i, g);
      case None =>
        ScanIsLeftmostSearch(m, mask, s, i + 1);
        ScanAtCopy(m, mask, s, i);
    }
  }

  /** Both readings agree at a position where the rule matches, given that they agree after the match. */
  lemma ScanAtMatch(m: Matcher, mask: string, s: string, i: nat, g: Groups)
    requires Sound(m)
    requires i < |s| && m(s[i..]) == Some(g)
    requires i + g.e3 <= |s| && ReplaceAll(m, mask, s[i + g.e3..]) == ReplaceAllLeftmost(m, mask, s, i + g.e3)
    ensures ReplaceAll(m, mask, s[i..]) == ReplaceAllLeftmost(m, mask, s, i)
  {
    var t := s[i..];
    assert FirstMatch(m, s, i) == Some(i);
    LeftmostAt(m, mask, s, i, i, g);
    assert t[g.e3..] == s[i + g.e3..];
    assert t[..g.e1] == s[i..i + g.e1] && t[g.e2..g.e3] == s[i + g.e2..i + g.e3];
  }

  /** Both readings agree at a position where the rule does not match, given that they agree after it. */
  lemma ScanAtCopy(m: Matcher, mask: string, s: string, i: nat)
    requires Sound(m)
    requires i < |s| && m(s[i..]).None?
    requires ReplaceAll(m, mask, s[i + 1..]) == ReplaceAllLeftmost(m, mask, s, i + 1)
    ensures ReplaceAll(m, mask, s[i..]) == ReplaceAllLeftmost(m, mask, s, i)
  {
    assert s[i..][1..] == s[i + 1..];
    LeftmostCopies(m, mask, s, i);
  }

  /** The matcher finds no match at any position of s. */
  ghost predicate Unmatched(m: Matcher, s: string) {
    forall k :: 0 <= k <= |s| ==> m(s[k..]).None?
  }

  /** Text in which the rule matches nowhere comes back unchanged. */
  lemma {:induction false} NoMatchUnchanged(m: Matcher, mask: string, s: string)
    requires Sound(m)
    requires Unmatched(m, s)
    ensures ReplaceAll(m, mask, s) == s
    decreases |s|
  {
    if s != [] {
      assert s[0..] == s;
      forall k | 0 <= k <= |s[1..]|
        ensures m(s[1..][k..]).None?
      {
        assert s[1..][k..] == s[k + 1..];
      }
      assert Unmatched(m, s[1..]);
      NoMatchUnchanged(m, mask, s[1..]);
      assert [s[0]] + s[1..] == s;
    }
  }

  /**
   * A leading piece in which no match starts is copied through, and the rest
   * is rewritten on its own.
   */
  lemma {:induction false} SkipUnmatched(m: Matcher, mask: string, a: string, b: string)
    requires Sound(m)
    requires forall k :: 0 <= k < |a| ==> m((a + b)[k..]).None?
    ensures ReplaceAll(m, mask, a + b) == a + ReplaceAll(m, mask, b)
    decreases |a|
  {
    if a != [] {
      forall k | 0 <= k < |a[1..]|
        ensures m((a[1..] + b)[k..]).None?
      {
        assert (a[1..] + b)[k..] == (a + b)[k + 1..];
      }
      SkipUnmatched(m, mask, a[1..], b);
      assert (a + b)[0..] == a + b;
      SkipFirst(m, mask, a, b);
      ConsFirst(a, ReplaceAll(m, mask, b));
    } else {
      assert a + b == b;
    }
  }

  /** Putting back the first character of a. */
  lemma ConsFirst(a: string, rest: string)
    requires a != []
    ensures [a[0]] + (a[1..] + rest) == a + rest
  {
    assert [a[0]] + a[1..] == a;
  }

  /** The first character of a is copied when no match starts there. */
  lemma SkipFirst(m: Matcher, mask: string, a: string, b: string)
    requires Sound(m)
    requires a != [] && m(a + b).None?
    ensures ReplaceAll(m, mask, a + b) == [a[0]] + ReplaceAll(m, mask, a[1..] + b)
  {
    assert (a + b)[1..] == a[1..] + b;
  }

  /**
   * The leftmost match is rewritten in place: everything before its value
   * is copied, the value becomes the mask, its group 3 is copied and the
   * search resumes after it.
   */
  lemma LeftmostMatchRewritten(m: Matcher, mask: string, s: string, j: nat, g: Groups)
    requires Sound(m)
    requires j <= |s| && FirstMatch(m, s, 0) == Some(j) && m(s[j..]) == Some(g)
    ensures ReplaceAll(m, mask, s) == s[..j + g.e1] + mask + s[j + g.e2..j + g.e3] + ReplaceAll(m, mask, s[j + g.e3..])
  {
    assert s[0..] == s;
    ScanIsLeftmostSearch(m, mask, s, 0);
    LeftmostAt(m, mask, s, 0, j, g);
    ScanIsLeftmostSearch(m, mask, s, j + g.e3);
    SameFromStart(s, j + g.e1, mask, s[j + g.e2..j + g.e3], ReplaceAll(m, mask, s), ReplaceAllLeftmost(m, mask, s, j + g.e3), ReplaceAll(m, mask, s[j + g.e3..]));
  }

  /** The rewrite of s, read from position 0, with its tail replaced by an equal one. */
  lemma SameFromStart(s: string, k: nat, a: string, b: string, x: string, c: string, d: string)
    requires k <= |s| && x == s[0..k] + a + b + c && c == d
    ensures x == s[..k] + a + b + d
  {
    assert s[0..k] == s[..k];
  }

  /** Every match of the matcher has a non-empty value and runs to the end of the text it starts in. */
  ghost predicate TakesRest(m: Matcher) {
    forall t :: m(t).Some? ==> m(t).value.e1 < m(t).value.e2 && m(t).value.e3 == |t|
  }

  /**
   * A pattern whose matches take the rest of the text is applied at most
   * once: the text is unchanged, or one non-empty value in it is replaced
   * by the mask.
   */
  lemma ReplaceAtMostOnce(m: Matcher, mask: string, s: string)
    requires Sound(m) && TakesRest(m)
    ensures ReplaceAll(m, mask, s) == s
         || exists i, j :: 0 <= i < j <= |s| && ReplaceAll(m, mask, s) == s[..i] + mask + s[j..]
  {
    match FirstMatch(m, s, 0)
    case None =>
      NoMatchUnchanged(m, mask, s);
    case Some(k) =>
      var g := m(s[k..]).value;
      LeftmostMatchRewritten(m, mask, s, k, g);
      MatchTakesRest(m, mask, s, k, g);
      assert 0 <= k + g.e1 < k + g.e2 <= |s| && ReplaceAll(m, mask, s) == s[..k + g.e1] + mask + s[k + g.e2..];
  }

  /** When the match runs to the end of the text, nothing is left to rewrite after it. */
  lemma MatchTakesRest(m: Matcher, mask: string, s: string, k: nat, g: Groups)
    requires Sound(m) && TakesRest(m)
    requires k <= |s| && m(s[k..]) == Some(g)
    requires ReplaceAll(m, mask, s) == s[..k + g.e1] + mask + s[k + g.e2..k + g.e3] + ReplaceAll(m, mask, s[k + g.e3..])
    ensures k + g.e1 < k + g.e2 <= |s|
    ensures ReplaceAll(m, mask, s) == s[..k + g.e1] + mask + s[k + g.e2..]
  {
    assert k + g.e3 == |s|;
    assert s[k + g.e3..] == [];
    assert s[k + g.e2..k + g.e3] == s[k + g.e2..];
  }
}
