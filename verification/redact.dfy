/**
 * The redaction the rule table defines: every rule of `RedactKeyList`, in
 * declared order, rewrites the output of the rule before it, each match
 * becoming group 1 + `RedactValue` + group 3.
 */
module Redaction {
  import opened Text
  import opened Rules
  import opened Replace
  import opened Spans

  /** `regexp.MustCompile` of a rule's pattern. */
  function Compile(r: Rule): (m: Matcher)
    ensures Sound(m)
    ensures forall t :: m(t) == MatchAt(r, t)
  {
    t => MatchAt(r, t)
  }

  /** One rule applied to a whole text with the fixed mask. */
  function ApplyRule(r: Rule, s: string): string {
    ReplaceAll(Compile(r), RedactValue, s)
  }

  /** The rules applied one after another, each to the previous rule's output. */
  function ApplyRules(rules: seq<Rule>, s: string): string
    decreases |rules|
  {
    if rules == [] then s else ApplyRules(rules[1..], ApplyRule(rules[0], s))
  }

  /** Redaction with the whole table. */
  function Redact(s: string): string {
    ApplyRules(RedactKeyList, s)
  }

  /** Running two lists back to back is running their concatenation. */
  lemma {:induction false} ApplyRulesAppend(first: seq<Rule>, second: seq<Rule>, s: string)
    ensures ApplyRules(first + second, s) == ApplyRules(second, ApplyRules(first, s))
    decreases |first|
  {
    if first == [] {
      assert first + second == second;
    } else {
      assert (first + second)[1..] == first[1..] + second;
      ApplyRulesAppend(first[1..], second, ApplyRule(first[0], s));
    }
  }

  /** Rule r matches at no position of s. */
  ghost predicate Inert(r: Rule, s: string) {
    Unmatched(Compile(r), s)
  }

  /** A rule that matches nowhere leaves the text as it is. */
  lemma InertRuleKeepsText(r: Rule, s: string)
    requires Inert(r, s)
    ensures ApplyRule(r, s) == s
  {
    NoMatchUnchanged(Compile(r), RedactValue, s);
  }

  /** A list of rules none of which matches anywhere leaves the text as it is. */
  lemma {:induction false} InertRulesKeepText(rules: seq<Rule>, s: string)
    requires forall i :: 0 <= i < |rules| ==> Inert(rules[i], s)
    ensures ApplyRules(rules, s) == s
    decreases |rules|
  {
    if rules != [] {
      InertRuleKeepsText(rules[0], s);
      assert forall i :: 0 <= i < |rules[1..]| ==> rules[1..][i] == rules[i + 1];
      InertRulesKeepText(rules[1..], s);
    }
  }

  /** Text on which no rule of the table matches is returned unchanged. */
  lemma RedactKeepsUnmatchedText(s: string)
    requires forall r :: r in RedactKeyList ==> Inert(r, s)
    ensures Redact(s) == s
  {
    InertRulesKeepText(RedactKeyList, s);
  }

  // ---------------------------------------------------------------------
  // Every match starts with a fixed word of its pattern

  /** A literal every match of the rule contains right at its start (after `\` for JSON). */
  function Marker(r: Rule): string {
    match r
    case JsonKey(key) => "\"" + key
    case Cert => CertBegin
    case Flag(name) => name
    case Users => UsersFlag
    case Arn => ArnHead
    case AccountLabel(caption) => caption
  }

  /** The word of group 1 of a JSON rule holds `"key` after its optional leading backslash. */
  lemma JsonPrefixHead(key: string, b1: bool, b2: bool, b3: bool)
    ensures var q := JsonPrefix(key, b1, b2, b3);
      var o := |Backslashes(b1)|;
      && o + 1 + |key| <= |q|
      && q[o..o + 1 + |key|] == "\"" + key
      && (b1 ==> q[0] == '\\')
  {
    var head := Backslashes(b1) + "\"" + key;
    assert JsonPrefix(key, b1, b2, b3) == head + (Backslashes(b2) + "\":" + Backslashes(b3) + "\"");
  }

  /** Group 1 of a JSON match holds `"key` at its start or right after a leading backslash. */
  lemma JsonMatchShowsMarker(key: string, s: string, g: Groups)
    requires JsonKeyMatch(key, s, g)
    ensures LitAt(s, 0, "\"" + key) || (0 < |s| && s[0] == '\\' && LitAt(s, 1, "\"" + key))
  {
    var b1: bool, b2: bool, b3: bool :| s[..g.e1] == JsonPrefix(key, b1, b2, b3);
    JsonPrefixHead(key, b1, b2, b3);
    var q := s[..g.e1];
    var o := |Backslashes(b1)|;
    assert q[o..o + 1 + |key|] == s[o..o + 1 + |key|];
    if b1 {
      assert s[0] == q[0];
    }
  }

  /** Any match of rule r at the start of s shows the rule's marker at position 0, or after a backslash at position 1. */
  lemma MatchShowsMarker(r: Rule, s: string, g: Groups)
    requires IsMatch(r, s, g)
    ensures LitAt(s, 0, Marker(r)) || (0 < |s| && s[0] == '\\' && LitAt(s, 1, Marker(r)))
  {
    if r.JsonKey? {
      JsonMatchShowsMarker(r.key, s, g);
    }
  }

  /** Where the rule matches, its marker is there. */
  lemma MatchAtShowsMarker(r: Rule, s: string)
    requires Compile(r)(s).Some?
    ensures LitAt(s, 0, Marker(r)) || (0 < |s| && s[0] == '\\' && LitAt(s, 1, Marker(r)))
  {
    MatchShowsMarker(r, s, MatchAt(r, s).value);
  }

  /** How often c occurs in s. */
  function Count(s: string, c: char): nat {
    multiset(s)[c]
  }

  /** A piece of s holds no more copies of c than s does. */
  lemma CountSlice(s: string, i: nat, j: nat, c: char)
    requires i <= j <= |s|
    ensures Count(s[i..j], c) <= Count(s, c)
  {
    assert s == s[..i] + s[i..j] + s[j..];
    assert multiset(s) == multiset(s[..i]) + multiset(s[i..j]) + multiset(s[j..]);
  }

  /** Where the marker occurs at position p of s, s holds at least as many copies of c as the marker. */
  lemma MarkerCount(r: Rule, s: string, p: nat, c: char)
    requires LitAt(s, p, Marker(r))
    ensures Count(Marker(r), c) <= Count(s, c)
  {
    CountSlice(s, p, p + |Marker(r)|, c);
  }

  /** A text with fewer copies of some character than the rule's marker holds has no match of the rule. */
  lemma InertByCount(r: Rule, s: string, c: char)
    requires Count(s, c) < Count(Marker(r), c)
    ensures Inert(r, s)
  {
    forall k | 0 <= k <= |s|
      ensures Compile(r)(s[k..]).None?
    {
      NoMatchAtByCount(r, s, k, c);
    }
  }

  lemma NoMatchAtByCount(r: Rule, s: string, k: nat, c: char)
    requires k <= |s|
    requires Count(s, c) < Count(Marker(r), c)
    ensures Compile(r)(s[k..]).None?
  {
    if Compile(r)(s[k..]).Some? {
      MatchAtShowsMarker(r, s[k..]);
      MarkerInSuffixCount(r, s, k, c);
    }
  }

  /** The marker at the start of s[k..] (or right after a backslash there) is a piece of s. */
  lemma MarkerInSuffixCount(r: Rule, s: string, k: nat, c: char)
    requires k <= |s|
    requires LitAt(s[k..], 0, Marker(r)) || LitAt(s[k..], 1, Marker(r))
    ensures Count(Marker(r), c) <= Count(s, c)
  {
    var mk := Marker(r);
    if LitAt(s[k..], 0, mk) {
      LitInSuffix(s, k, 0, mk);
      MarkerCount(r, s, k, c);
    } else {
      LitInSuffix(s, k, 1, mk);
      MarkerCount(r, s, k + 1, c);
    }
  }

  /**
   * No match of r starts inside a leading piece a that has too few copies
   * of c to hold the marker and ends in a character foreign to the marker
   * (and not a backslash), whatever follows it.
   */
  lemma NoMatchStartsIn(r: Rule, a: string, b: string, c: char)
    requires Count(a, c) < Count(Marker(r), c)
    requires 0 < |a| && a[|a| - 1] !in Marker(r) && a[|a| - 1] != '\\'
    ensures forall k :: 0 <= k < |a| ==> Compile(r)((a + b)[k..]).None?
  {
    forall k | 0 <= k < |a|
      ensures Compile(r)((a + b)[k..]).None?
    {
      NoMatchAtInPiece(r, a, b, c, k);
    }
  }

  lemma NoMatchAtInPiece(r: Rule, a: string, b: string, c: char, k: nat)
    requires Count(a, c) < Count(Marker(r), c)
    requires k < |a| && a[|a| - 1] !in Marker(r) && a[|a| - 1] != '\\'
    ensures Compile(r)((a + b)[k..]).None?
  {
    if Compile(r)((a + b)[k..]).Some? {
      MatchAtShowsMarker(r, (a + b)[k..]);
      MarkerNotInPiece(r, a, b, c, k);
    }
  }

  /** The marker cannot sit at k or k + 1 in a + b when it would have to lie in or overlap such a piece a. */
  lemma MarkerNotInPiece(r: Rule, a: string, b: string, c: char, k: nat)
    requires Count(a, c) < Count(Marker(r), c)
    requires k < |a| && a[|a| - 1] !in Marker(r) && a[|a| - 1] != '\\'
    ensures !LitAt((a + b)[k..], 0, Marker(r))
    ensures !(0 < |(a + b)[k..]| && (a + b)[k..][0] == '\\' && LitAt((a + b)[k..], 1, Marker(r)))
  {
    var s := a + b;
    var mk := Marker(r);
    LitInSuffix(s, k, 0, mk);
    MarkerNotStartingIn(r, a, b, c, k);
    if k + 1 < |a| {
      LitInSuffix(s, k, 1, mk);
      MarkerNotStartingIn(r, a, b, c, k + 1);
    } else {
      assert s[k..][0] == a[|a| - 1];
    }
  }

  /** A literal at offset o of s[k..] is the literal at k + o of s. */
  lemma LitInSuffix(s: string, k: nat, o: nat, lit: string)
    requires k <= |s|
    ensures LitAt(s[k..], o, lit) <==> LitAt(s, k + o, lit)
  {
    if LitAt(s[k..], o, lit) {
      assert s[k..][o..o + |lit|] == s[k + o..k + o + |lit|];
    }
    if LitAt(s, k + o, lit) {
      assert s[k..][o..o + |lit|] == s[k + o..k + o + |lit|];
    }
  }

  /** The marker does not start inside such a piece a of a + b. */
  lemma MarkerNotStartingIn(r: Rule, a: string, b: string, c: char, p: nat)
    requires Count(a, c) < Count(Marker(r), c)
    requires p < |a| && a[|a| - 1] !in Marker(r)
    ensures !LitAt(a + b, p, Marker(r))
  {
    var mk := Marker(r);
    if LitAt(a + b, p, mk) {
      if p + |mk| <= |a| {
        LitInPrefix(a, b, p, mk);
        MarkerCount(r, a, p, c);
      } else {
        LitOverlapsEnd(a, b, p, mk);
      }
    }
  }

  /** A literal that lies inside a lies there in a + b too. */
  lemma LitInPrefix(a: string, b: string, p: nat, lit: string)
    requires p + |lit| <= |a| && LitAt(a + b, p, lit)
    ensures LitAt(a, p, lit)
  {
    assert a[p..p + |lit|] == (a + b)[p..p + |lit|];
  }

  /** A literal that starts in a and runs past its end holds a's last character. */
  lemma LitOverlapsEnd(a: string, b: string, p: nat, lit: string)
    requires p < |a| < p + |lit|
    requires LitAt(a + b, p, lit)
    ensures a[|a| - 1] in lit
  {
    assert lit[|a| - 1 - p] == (a + b)[|a| - 1];
  }

  /** The rewriting copies such a leading piece and carries on after it. */
  lemma SkipPiece(r: Rule, a: string, b: string, c: char)
    requires Count(a, c) < Count(Marker(r), c)
    requires 0 < |a| && a[|a| - 1] !in Marker(r) && a[|a| - 1] != '\\'
    ensures ApplyRule(r, a + b) == a + ApplyRule(r, b)
  {
    NoMatchStartsIn(r, a, b, c);
    SkipUnmatched(Compile(r), RedactValue, a, b);
  }

  /** Where the rule matches at the start, group 1 is kept, the value masked, group 3 kept, and the rest rewritten. */
  lemma ApplyRuleAt(r: Rule, s: string, g: Groups)
    requires MatchAt(r, s) == Some(g)
    ensures g.e1 <= g.e2 <= g.e3 <= |s|
    ensures ApplyRule(r, s) == s[..g.e1] + RedactValue + s[g.e2..g.e3] + ApplyRule(r, s[g.e3..])
  {
  }

  /** Where the rule does not match at the start, the first character is kept. */
  lemma ApplyRuleSkipsOne(r: Rule, s: string)
    requires 0 < |s| && MatchAt(r, s).None?
    ensures ApplyRule(r, s) == [s[0]] + ApplyRule(r, s[1..])
  {
  }
}
