/**
 * The redaction rule table of tests/utils/log/constants.go: the mask literal
 * `RedactValue` and the thirteen patterns of `RedactKeyList`.
 *
 * Every pattern has three groups: a kept prefix, the sensitive value and a
 * kept suffix. Instead of a regular-expression engine, each of the six shapes
 * of pattern gets a hand-written matcher that finds, at the start of a text,
 * the match Go's `regexp` package prefers (leftmost-first, greedy
 * quantifiers). Beside each matcher stands a declarative description of the
 * pattern's language (`...Match` predicates) and two facts connect them: what
 * the matcher returns is a match of the pattern, and any match of the
 * pattern implies that the matcher succeeds and returns a match that is
 * preferred over it (longest first group, then longest value, then longest
 * suffix, which for these patterns is exactly the backtracking order).
 */
module Rules {
  import opened Text
  import opened Spans

  /** The fixed mask: thirteen asterisks. */
  const RedactValue: string := "*************"

  const CertBegin: string := "-----BEGIN CERTIFICATE-----\n"
  const CertEnd: string := "-----END CERTIFICATE-----"
  const UsersFlag: string := "--users"
  const ArnHead: string := "arn:aws:"

  /** One pattern of the table, by shape. */
  datatype Rule =
    | JsonKey(key: string)          // (\\?"key\\?":\\?")([^"]*)(\\?")
    | Cert                          // (-----BEGIN CERTIFICATE-----\n)([^-----]*)(-----END CERTIFICATE-----)
    | Flag(name: string)            // (name\s+)([^\n\t\\\s]+)([\n\\\s]*)
    | Users                         // (--users\s+[a-zA-Z0-9-]+:)([^\s\n\\]+)([\s\S]+)
    | Arn                           // (arn:aws:[a-z]+:[a-z0-9-]*:)([0-9]{12})(:)
    | AccountLabel(caption: string)   // (caption\s*)([0-9]{12})([\n\\n].)

  /** `RedactKeyList`, in declared order. */
  const RedactKeyList: seq<Rule> := [
    JsonKey("password"),
    JsonKey("additional_trust_bundle"),
    Cert,
    Flag("--password"),
    Flag("--client-id"),
    Flag("--bind-password"),
    Flag("--client-secret"),
    Users,
    Flag("--cluster-admin-password"),
    Flag("--billing-account"),
    Arn,
    AccountLabel("AWS Account:"),
    AccountLabel("AWS Billing Account:")
  ]

  // ---------------------------------------------------------------------
  // JSON fields: (\\?"key\\?":\\?")([^"]*)(\\?")

  function Backslashes(b: bool): string {
    if b then "\\" else ""
  }

  /** The word of group 1 chosen by the three optional backslashes. */
  function JsonPrefix(key: string, b1: bool, b2: bool, b3: bool): string {
    Backslashes(b1) + "\"" + key + Backslashes(b2) + "\":" + Backslashes(b3) + "\""
  }

  ghost predicate IsJsonPrefix(key: string, p: string) {
    exists b1: bool, b2: bool, b3: bool :: p == JsonPrefix(key, b1, b2, b3)
  }

  /** Any match of the JSON pattern, preferred or not. */
  ghost predicate JsonKeyMatch(key: string, s: string, g: Groups) {
    && WellFormed(s, g)
    && IsJsonPrefix(key, s[..g.e1])
    && AllIn(s, g.e1, g.e2, NotQuote)
    && (s[g.e2..g.e3] == "\"" || s[g.e2..g.e3] == "\\\"")
  }

  /** Group 1 as a greedy `\\?` reads it: take each optional backslash that is there. */
  function JsonPrefixGuess(key: string, s: string): (p: string)
    ensures IsJsonPrefix(key, p)
  {
    var b1 := 0 < |s| && s[0] == '\\';
    var i2 := |Backslashes(b1)| + 1 + |key|;
    var b2 := i2 < |s| && s[i2] == '\\';
    var i3 := i2 + |Backslashes(b2)| + 2;
    var b3 := i3 < |s| && s[i3] == '\\';
    JsonPrefix(key, b1, b2, b3)
  }

  function MatchJsonKey(key: string, s: string): (m: Option<Groups>)
    ensures m.Some? ==> JsonKeyMatch(key, s, m.value)
  {
    var p := JsonPrefixGuess(key, s);
    if !LitAt(s, 0, p) then None
    else
      var e2 := Run(s, |p|, NotQuote);
      if e2 < |s| then Some(Groups(|p|, e2, e2 + 1)) else None
  }

  /**
   * The JSON matcher is complete and picks the preferred match: the value
   * runs to the first `"` after group 1, so a backslash right before that
   * quote belongs to the value.
   */
  lemma JsonKeyLeftmostFirst(key: string, s: string, h: Groups)
    requires JsonKeyMatch(key, s, h)
    ensures MatchJsonKey(key, s).Some?
    ensures Prefers(MatchJsonKey(key, s).value, h)
  {
    var b1: bool, b2: bool, b3: bool :| s[..h.e1] == JsonPrefix(key, b1, b2, b3);
    GuessReadsPrefix(key, s, b1, b2, b3);
    RunIsLongest(s, h.e1, NotQuote, h.e2);
    var e2 := Run(s, h.e1, NotQuote);
    assert s[h.e2..h.e3][0] == s[h.e2];
    if h.e2 < e2 {
      assert s[h.e2] == '\\';
      assert s[h.e2 + 1] == s[h.e2..h.e3][1] == '"';
      assert e2 <= h.e2 + 1;
    } else {
      assert s[h.e2] == '"';
    }
  }

  /** Where the three optional backslashes sit in a word of group 1. */
  lemma JsonPrefixLayout(key: string, b1: bool, b2: bool, b3: bool)
    ensures var q := JsonPrefix(key, b1, b2, b3);
      var i2 := |Backslashes(b1)| + 1 + |key|;
      var i3 := i2 + |Backslashes(b2)| + 2;
      && |q| == i3 + |Backslashes(b3)| + 1
      && q[0] == (if b1 then '\\' else '"')
      && q[i2] == (if b2 then '\\' else '"')
      && q[i3] == (if b3 then '\\' else '"')
  {
    var i2 := |Backslashes(b1)| + 1 + |key|;
    var i3 := i2 + |Backslashes(b2)| + 2;
    var q1 := Backslashes(b1) + "\"" + key;
    var q2 := q1 + Backslashes(b2) + "\":";
    assert JsonPrefix(key, b1, b2, b3) == q2 + Backslashes(b3) + "\"";
    assert |q1| == i2 && |q2| == i3;
    assert (q1 + Backslashes(b2) + "\":")[i2] == (Backslashes(b2) + "\":")[0];
  }

  /** On a text that starts with a word of group 1, the greedy reading finds exactly that word. */
  lemma GuessReadsPrefix(key: string, s: string, b1: bool, b2: bool, b3: bool)
    requires LitAt(s, 0, JsonPrefix(key, b1, b2, b3))
    ensures JsonPrefixGuess(key, s) == JsonPrefix(key, b1, b2, b3)
  {
    var q := JsonPrefix(key, b1, b2, b3);
    JsonPrefixLayout(key, b1, b2, b3);
    assert s[0] == q[0];
    var i2 := |Backslashes(b1)| + 1 + |key|;
    assert s[i2] == q[i2];
    var i3 := i2 + |Backslashes(b2)| + 2;
    assert s[i3] == q[i3];
  }

  // ---------------------------------------------------------------------
  // PEM certificate: (-----BEGIN CERTIFICATE-----\n)([^-----]*)(-----END CERTIFICATE-----)

  ghost predicate CertMatch(s: string, g: Groups) {
    && WellFormed(s, g)
    && LitAt(s, 0, CertBegin) && g.e1 == |CertBegin|
    && AllIn(s, g.e1, g.e2, NotDash)
    && LitAt(s, g.e2, CertEnd) && g.e3 == g.e2 + |CertEnd|
  }

  function MatchCert(s: string): (m: Option<Groups>)
    ensures m.Some? ==> CertMatch(s, m.value)
  {
    if !LitAt(s, 0, CertBegin) then None
    else
      var e2 := Run(s, |CertBegin|, NotDash);
      if LitAt(s, e2, CertEnd) then Some(Groups(|CertBegin|, e2, e2 + |CertEnd|)) else None
  }

  /** A certificate match is unique: the body ends at the first `-` after the header. */
  lemma CertLeftmostFirst(s: string, h: Groups)
    requires CertMatch(s, h)
    ensures MatchCert(s) == Some(h)
  {
    assert s[h.e2] == CertEnd[0] == '-';
    RunIs(s, |CertBegin|, NotDash, h.e2);
  }

  // ---------------------------------------------------------------------
  // Sensitive flags: (name\s+)([^\n\t\\\s]+)([\n\\\s]*)

  ghost predicate FlagMatch(name: string, s: string, g: Groups) {
    && WellFormed(s, g)
    && LitAt(s, 0, name)
    && |name| < g.e1 && AllIn(s, |name|, g.e1, IsSpace)
    && g.e1 < g.e2 && AllIn(s, g.e1, g.e2, IsValueChar)
    && AllIn(s, g.e2, g.e3, IsGapChar)
  }

  function MatchFlag(name: string, s: string): (m: Option<Groups>)
    ensures m.Some? ==> FlagMatch(name, s, m.value)
  {
    if !LitAt(s, 0, name) then None
    else
      var e1 := Run(s, |name|, IsSpace);
      var e2 := Run(s, e1, IsValueChar);
      if e1 == |name| || e2 == e1 then None
      else Some(Groups(e1, e2, Run(s, e2, IsGapChar)))
  }

  /** The flag matcher is complete; its value and its suffix are the longest possible. */
  lemma FlagLeftmostFirst(name: string, s: string, h: Groups)
    requires FlagMatch(name, s, h)
    ensures MatchFlag(name, s).Some?
    ensures var g := MatchFlag(name, s).value; g.e1 == h.e1 && g.e2 >= h.e2 && (g.e2 == h.e2 ==> g.e3 >= h.e3)
  {
    assert !IsSpace(s[h.e1]);
    RunIs(s, |name|, IsSpace, h.e1);
    RunIsLongest(s, h.e1, IsValueChar, h.e2);
    RunIsLongest(s, h.e2, IsGapChar, h.e3);
  }

  // ---------------------------------------------------------------------
  // Users: (--users\s+[a-zA-Z0-9-]+:)([^\s\n\\]+)([\s\S]+)

  ghost predicate UsersMatch(s: string, g: Groups) {
    && WellFormed(s, g)
    && LitAt(s, 0, UsersFlag)
    && (exists w: nat :: |UsersFlag| < w < g.e1 - 1 && AllIn(s, |UsersFlag|, w, IsSpace) && AllIn(s, w, g.e1 - 1, IsUserChar))
    && s[g.e1 - 1] == ':'
    && g.e1 < g.e2 && AllIn(s, g.e1, g.e2, IsValueChar)
    && g.e2 < g.e3
  }

  /**
   * The suffix `[\s\S]+` takes everything that is left; when the secret
   * itself reaches the end of the text, backtracking hands its last
   * character to the suffix.
   */
  function MatchUsers(s: string): (m: Option<Groups>)
    ensures m.Some? ==> UsersMatch(s, m.value) && m.value.e3 == |s|
  {
    if !LitAt(s, 0, UsersFlag) then None
    else
      var w := Run(s, |UsersFlag|, IsSpace);
      var n := Run(s, w, IsUserChar);
      if w == |UsersFlag| || n == w || n == |s| || s[n] != ':' then None
      else
        var e1 := n + 1;
        var v := Run(s, e1, IsValueChar);
        assert AllIn(s, |UsersFlag|, w, IsSpace) && AllIn(s, w, n, IsUserChar);
        if v == e1 then None
        else if v < |s| then Some(Groups(e1, v, |s|))
        else if v - e1 >= 2 then Some(Groups(e1, v - 1, |s|))
        else None
  }

  lemma UsersLeftmostFirst(s: string, h: Groups)
    requires UsersMatch(s, h)
    ensures MatchUsers(s).Some?
    ensures Prefers(MatchUsers(s).value, h)
  {
    var w: nat :| |UsersFlag| < w < h.e1 - 1 && AllIn(s, |UsersFlag|, w, IsSpace) && AllIn(s, w, h.e1 - 1, IsUserChar);
    assert IsUserChar(s[w]);
    RunIs(s, |UsersFlag|, IsSpace, w);
    assert !IsUserChar(s[h.e1 - 1]);
    RunIs(s, w, IsUserChar, h.e1 - 1);
    RunIsLongest(s, h.e1, IsValueChar, h.e2);
  }

  // ---------------------------------------------------------------------
  // ARN: (arn:aws:[a-z]+:[a-z0-9-]*:)([0-9]{12})(:)

  ghost predicate ArnMatch(s: string, g: Groups) {
    && WellFormed(s, g)
    && LitAt(s, 0, ArnHead)
    && (exists a: nat :: |ArnHead| < a < g.e1 - 1 && AllIn(s, |ArnHead|, a, IsLower) && s[a] == ':' && AllIn(s, a + 1, g.e1 - 1, IsRegionChar))
    && s[g.e1 - 1] == ':'
    && g.e2 == g.e1 + 12 && TwelveDigitsAt(s, g.e1)
    && g.e3 == g.e2 + 1 && s[g.e2] == ':'
  }

  function MatchArn(s: string): (m: Option<Groups>)
    ensures m.Some? ==> ArnMatch(s, m.value)
  {
    if !LitAt(s, 0, ArnHead) then None
    else
      var a := Run(s, |ArnHead|, IsLower);
      if a == |ArnHead| || a == |s| || s[a] != ':' then None
      else
        var b := Run(s, a + 1, IsRegionChar);
        if b == |s| || s[b] != ':' then None
        else
          var e1 := b + 1;
          if TwelveDigitsAt(s, e1) && e1 + 12 < |s| && s[e1 + 12] == ':' then Some(Groups(e1, e1 + 12, e1 + 13))
          else None
  }

  /** An ARN match is unique. */
  lemma ArnLeftmostFirst(s: string, h: Groups)
    requires ArnMatch(s, h)
    ensures MatchArn(s) == Some(h)
  {
    var a: nat :| |ArnHead| < a < h.e1 - 1 && AllIn(s, |ArnHead|, a, IsLower) && s[a] == ':' && AllIn(s, a + 1, h.e1 - 1, IsRegionChar);
    RunIs(s, |ArnHead|, IsLower, a);
    RunIs(s, a + 1, IsRegionChar, h.e1 - 1);
  }

  // ---------------------------------------------------------------------
  // Account labels: (caption\s*)([0-9]{12})([\n\\n].)

  ghost predicate AccountLabelMatch(caption: string, s: string, g: Groups) {
    && WellFormed(s, g)
    && LitAt(s, 0, caption)
    && |caption| <= g.e1 && AllIn(s, |caption|, g.e1, IsSpace)
    && g.e2 == g.e1 + 12 && TwelveDigitsAt(s, g.e1)
    && g.e3 == g.e2 + 2 && IsLabelBreak(s[g.e2]) && NotNewline(s[g.e2 + 1])
  }

  function MatchAccountLabel(caption: string, s: string): (m: Option<Groups>)
    ensures m.Some? ==> AccountLabelMatch(caption, s, m.value)
  {
    if !LitAt(s, 0, caption) then None
    else
      var e1 := Run(s, |caption|, IsSpace);
      if TwelveDigitsAt(s, e1) && e1 + 14 <= |s| && IsLabelBreak(s[e1 + 12]) && NotNewline(s[e1 + 13])
      then Some(Groups(e1, e1 + 12, e1 + 14))
      else None
  }

  /** A caption match is unique. */
  lemma AccountLabelLeftmostFirst(caption: string, s: string, h: Groups)
    requires AccountLabelMatch(caption, s, h)
    ensures MatchAccountLabel(caption, s) == Some(h)
  {
    assert IsDigit(s[h.e1]);
    RunIs(s, |caption|, IsSpace, h.e1);
  }

  // ---------------------------------------------------------------------
  // All shapes together

  /** Any match of rule r at the start of s. */
  ghost predicate IsMatch(r: Rule, s: string, g: Groups) {
    match r
    case JsonKey(key) => JsonKeyMatch(key, s, g)
    case Cert => CertMatch(s, g)
    case Flag(name) => FlagMatch(name, s, g)
    case Users => UsersMatch(s, g)
    case Arn => ArnMatch(s, g)
    case AccountLabel(caption) => AccountLabelMatch(caption, s, g)
  }

  /** The match Go's regexp reports for rule r when it tries position 0 of s. */
  function MatchAt(r: Rule, s: string): (m: Option<Groups>)
    ensures m.Some? ==> IsMatch(r, s, m.value) && WellFormed(s, m.value)
  {
    match r
    case JsonKey(key) => MatchJsonKey(key, s)
    case Cert => MatchCert(s)
    case Flag(name) => MatchFlag(name, s)
    case Users => MatchUsers(s)
    case Arn => MatchArn(s)
    case AccountLabel(caption) => MatchAccountLabel(caption, s)
  }

  /** Whatever the rule, MatchAt finds a match whenever there is one and returns the preferred one. */
  lemma MatchAtLeftmostFirst(r: Rule, s: string, h: Groups)
    requires IsMatch(r, s, h)
    ensures MatchAt(r, s).Some?
    ensures Prefers(MatchAt(r, s).value, h)
  {
    match r
    case JsonKey(key) => JsonKeyLeftmostFirst(key, s, h);
    case Cert => CertLeftmostFirst(s, h);
    case Flag(name) => FlagLeftmostFirst(name, s, h);
    case Users => UsersLeftmostFirst(s, h);
    case Arn => ArnLeftmostFirst(s, h);
    case AccountLabel(caption) => AccountLabelLeftmostFirst(caption, s, h);
  }
}
