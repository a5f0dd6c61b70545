/**
 * What each rule does to the kinds of text it is written for, stated for
 * every text of that shape: which part is masked, which parts are kept,
 * and where the rewriting carries on.
 */
module Behaviour {
  import opened Text
  import opened Spans
  import opened Rules
  import opened Replace
  import opened Redaction

  /** Every character of s belongs to the class p. */
  predicate All(s: string, p: char -> bool) {
    forall i :: 0 <= i < |s| ==> p(s[i])
  }

  // ---------------------------------------------------------------------
  // Flags

  /**
   * A sensitive flag, blanks, a value and the blanks or line continuations
   * after it: the value is masked; the flag, the blanks before and after it
   * are kept; the text after them is rewritten on its own.
   */
  lemma FlagValueMasked(name: string, ws: string, v: string, gap: string, rest: string)
    requires 0 < |ws| && All(ws, IsSpace)
    requires 0 < |v| && All(v, IsValueChar)
    requires All(gap, IsGapChar)
    requires rest == [] || (gap != [] && !IsGapChar(rest[0]))
    ensures ApplyRule(Flag(name), name + ws + v + gap + rest)
         == name + ws + RedactValue + gap + ApplyRule(Flag(name), rest)
  {
    FlagMatchesValue(name, ws, v, gap, rest);
    SpliceMask(Flag(name), name + ws, v, gap, rest);
  }

  /** The flag pattern matches its name, the blanks, the whole value and the whole gap after it. */
  lemma FlagMatchesValue(name: string, ws: string, v: string, gap: string, rest: string)
    requires 0 < |ws| && All(ws, IsSpace)
    requires 0 < |v| && All(v, IsValueChar)
    requires All(gap, IsGapChar)
    requires rest == [] || (gap != [] && !IsGapChar(rest[0]))
    ensures MatchAt(Flag(name), name + ws + v + gap + rest) == Some(Groups(|name| + |ws|, |name| + |ws| + |v|, |name| + |ws| + |v| + |gap|))
  {
    var s := name + ws + v + gap + rest;
    var e1 := |name| + |ws|;
    var e2 := e1 + |v|;
    var e3 := e2 + |gap|;
    assert s[..|name|] == name;
    RunIs(s, |name|, IsSpace, e1);
    RunIs(s, e1, IsValueChar, e2);
    RunIs(s, e2, IsGapChar, e3);
  }

  /** A match whose groups are exactly p, v and gap rewrites v to the mask and continues on rest. */
  lemma SpliceMask(r: Rule, p: string, v: string, gap: string, rest: string)
    requires MatchAt(r, p + v + gap + rest) == Some(Groups(|p|, |p| + |v|, |p| + |v| + |gap|))
    ensures ApplyRule(r, p + v + gap + rest) == p + RedactValue + gap + ApplyRule(r, rest)
  {
    var s := p + v + gap + rest;
    ApplyRuleAt(r, s, Groups(|p|, |p| + |v|, |p| + |v| + |gap|));
    assert s[..|p|] == p && s[|p| + |v|..|p| + |v| + |gap|] == gap && s[|p| + |v| + |gap|..] == rest;
  }

  // ---------------------------------------------------------------------
  // JSON fields

  /**
   * A plain JSON field `"key":"value"`: the value, which may span lines but
   * holds no quote, is masked and both quotes are kept.
   */
  lemma JsonValueMasked(key: string, v: string, rest: string)
    requires All(v, NotQuote)
    ensures ApplyRule(JsonKey(key), "\"" + key + "\":\"" + v + "\"" + rest)
         == "\"" + key + "\":\"" + RedactValue + "\"" + ApplyRule(JsonKey(key), rest)
  {
    var p := JsonPrefix(key, false, false, false);
    assert p == "\"" + key + "\":\"";
    JsonMatchesValue(key, false, false, false, v, rest);
    SpliceMask(JsonKey(key), p, v, "\"", rest);
  }

  /** After a word of group 1, a value without quotes and a quote: the JSON rule matches up to and including that quote. */
  lemma JsonMatchesValue(key: string, b1: bool, b2: bool, b3: bool, v: string, rest: string)
    requires All(v, NotQuote)
    ensures var p := JsonPrefix(key, b1, b2, b3);
      MatchAt(JsonKey(key), p + v + "\"" + rest) == Some(Groups(|p|, |p| + |v|, |p| + |v| + 1))
  {
    var p := JsonPrefix(key, b1, b2, b3);
    var s := p + v + "\"" + rest;
    assert s[..|p|] == p;
    GuessReadsPrefix(key, s, b1, b2, b3);
    RunIs(s, |p|, NotQuote, |p| + |v|);
  }

  /**
   * An escaped JSON field `\"key\":\"value\"`, as found inside a JSON
   * string: the value class `[^"]` takes the backslash of the closing `\"`,
   * so that backslash is masked with the value and only the bare quote
   * remains after the mask.
   */
  lemma EscapedJsonSwallowsBackslash(key: string, v: string, rest: string)
    requires All(v, NotQuote)
    ensures ApplyRule(JsonKey(key), "\\\"" + key + "\\\":\\\"" + v + "\\\"" + rest)
         == "\\\"" + key + "\\\":\\\"" + RedactValue + "\"" + ApplyRule(JsonKey(key), rest)
  {
    var p := JsonPrefix(key, true, true, true);
    assert p == "\\\"" + key + "\\\":\\\"";
    BackslashJoinsValue(v);
    JsonMatchesValue(key, true, true, true, v + "\\", rest);
    SpliceMask(JsonKey(key), p, v + "\\", "\"", rest);
    EscapedQuoteSplit(p, v, rest);
  }

  // ---------------------------------------------------------------------
  // Certificates

  /** A PEM certificate whose body holds no `-`: the body is masked, both markers are kept. */
  lemma CertBodyMasked(body: string, rest: string)
    requires All(body, NotDash)
    ensures ApplyRule(Cert, CertBegin + body + CertEnd + rest)
         == CertBegin + RedactValue + CertEnd + ApplyRule(Cert, rest)
  {
    CertMatchesBody(body, rest);
    SpliceMask(Cert, CertBegin, body, CertEnd, rest);
  }

  /** The certificate rule matches the header, the whole dash-free body and the end marker. */
  lemma CertMatchesBody(body: string, rest: string)
    requires All(body, NotDash)
    ensures MatchAt(Cert, CertBegin + body + CertEnd + rest)
         == Some(Groups(|CertBegin|, |CertBegin| + |body|, |CertBegin| + |body| + |CertEnd|))
  {
    var s := CertBegin + body + CertEnd + rest;
    var e2 := |CertBegin| + |body|;
    assert s[..|CertBegin|] == CertBegin;
    assert s[e2..e2 + |CertEnd|] == CertEnd;
    RunIs(s, |CertBegin|, NotDash, e2);
  }

  /**
   * The body class excludes `-` altogether: when the first `-` after the
   * header does not open the end marker, the certificate rule does not
   * match there at all.
   */
  lemma CertBodyWithDashNotMatched(b1: string, b2: string)
    requires All(b1, NotDash)
    requires !LitAt("-" + b2, 0, CertEnd)
    ensures MatchAt(Cert, CertBegin + b1 + "-" + b2).None?
  {
    var s := CertBegin + b1 + "-" + b2;
    var e2 := |CertBegin| + |b1|;
    assert s[..|CertBegin|] == CertBegin;
    RunIs(s, |CertBegin|, NotDash, e2);
    assert s[e2..] == "-" + b2;
  }

  // ---------------------------------------------------------------------
  // Users

  /**
   * `--users name:secret` followed by more text: only the secret is masked,
   * and everything after it is kept as the suffix group, without being
   * searched for another `--users`.
   */
  lemma UsersSecretMasked(ws: string, name: string, v: string, rest: string)
    requires 0 < |ws| && All(ws, IsSpace)
    requires 0 < |name| && All(name, IsUserChar)
    requires 0 < |v| && All(v, IsValueChar)
    requires 0 < |rest| && !IsValueChar(rest[0])
    ensures ApplyRule(Users, UsersFlag + ws + name + ":" + v + rest)
         == UsersFlag + ws + name + ":" + RedactValue + rest
  {
    UsersMatchesSecret(ws, name, v, rest);
    SpliceMaskAtEnd(Users, UsersFlag + ws + name + ":", v, rest);
  }

  /** The users rule takes the whole secret as its value and the rest of the text as its suffix. */
  lemma UsersMatchesSecret(ws: string, name: string, v: string, rest: string)
    requires 0 < |ws| && All(ws, IsSpace)
    requires 0 < |name| && All(name, IsUserChar)
    requires 0 < |v| && All(v, IsValueChar)
    requires 0 < |rest| && !IsValueChar(rest[0])
    ensures var p := UsersFlag + ws + name + ":";
      MatchAt(Users, p + v + rest) == Some(Groups(|p|, |p| + |v|, |p| + |v| + |rest|))
  {
    var s := UsersFlag + ws + name + ":" + v + rest;
    var w := |UsersFlag| + |ws|;
    var n := w + |name|;
    assert s[..|UsersFlag|] == UsersFlag;
    RunIs(s, |UsersFlag|, IsSpace, w);
    RunIs(s, w, IsUserChar, n);
    RunIs(s, n + 1, IsValueChar, n + 1 + |v|);
  }

  /** A match that runs to the end of the text: its value becomes the mask and nothing follows its suffix. */
  lemma SpliceMaskAtEnd(r: Rule, p: string, v: string, gap: string)
    requires MatchAt(r, p + v + gap) == Some(Groups(|p|, |p| + |v|, |p| + |v| + |gap|))
    ensures ApplyRule(r, p + v + gap) == p + RedactValue + gap
  {
    EmptyTail(p + v + gap, []);
    SpliceMask(r, p, v, gap, []);
    NothingToRewrite(r);
    EmptyTail(p + RedactValue + gap, ApplyRule(r, []));
  }

  /**
   * A secret that ends the text: the suffix group needs one character, so
   * backtracking leaves the secret's last character unmasked.
   */
  lemma UsersSecretAtEndKeepsLastChar(ws: string, name: string, v: string)
    requires 0 < |ws| && All(ws, IsSpace)
    requires 0 < |name| && All(name, IsUserChar)
    requires 2 <= |v| && All(v, IsValueChar)
    ensures ApplyRule(Users, UsersFlag + ws + name + ":" + v)
         == UsersFlag + ws + name + ":" + RedactValue + [v[|v| - 1]]
  {
    var p := UsersFlag + ws + name + ":";
    assert p + v == p + v[..|v| - 1] + [v[|v| - 1]];
    UsersMatchesAllButLast(ws, name, v);
    SpliceMaskAtEnd(Users, p, v[..|v| - 1], [v[|v| - 1]]);
  }

  /** A secret at the very end: the value stops one character short so that the suffix group gets one. */
  lemma UsersMatchesAllButLast(ws: string, name: string, v: string)
    requires 0 < |ws| && All(ws, IsSpace)
    requires 0 < |name| && All(name, IsUserChar)
    requires 2 <= |v| && All(v, IsValueChar)
    ensures var p := UsersFlag + ws + name + ":";
      MatchAt(Users, p + v) == Some(Groups(|p|, |p| + |v| - 1, |p| + |v|))
  {
    var s := UsersFlag + ws + name + ":" + v;
    var w := |UsersFlag| + |ws|;
    var n := w + |name|;
    assert s[..|UsersFlag|] == UsersFlag;
    RunIs(s, |UsersFlag|, IsSpace, w);
    RunIs(s, w, IsUserChar, n);
    RunIs(s, n + 1, IsValueChar, |s|);
  }

  /** A one-character secret at the very end cannot be split into value and suffix and is not matched. */
  lemma UsersOneCharSecretAtEndNotMatched(ws: string, name: string, x: char)
    requires 0 < |ws| && All(ws, IsSpace)
    requires 0 < |name| && All(name, IsUserChar)
    requires IsValueChar(x)
    ensures MatchAt(Users, UsersFlag + ws + name + ":" + [x]).None?
  {
    var s := UsersFlag + ws + name + ":" + [x];
    var w := |UsersFlag| + |ws|;
    var n := w + |name|;
    assert s[..|UsersFlag|] == UsersFlag;
    RunIs(s, |UsersFlag|, IsSpace, w);
    RunIs(s, w, IsUserChar, n);
    RunIs(s, n + 1, IsValueChar, |s|);
  }

  /**
   * Because the suffix group takes the rest of the text, one application of
   * the users rule masks at most one secret: the text is either unchanged or
   * one non-empty piece of it is replaced by the mask.
   */
  lemma UsersMasksAtMostOnce(s: string)
    ensures ApplyRule(Users, s) == s
         || exists i, j :: 0 <= i < j <= |s| && ApplyRule(Users, s) == s[..i] + RedactValue + s[j..]
  {
    forall t
      ensures Compile(Users)(t).Some? ==> Compile(Users)(t).value.e1 < Compile(Users)(t).value.e2 && Compile(Users)(t).value.e3 == |t|
    {
    }
    ReplaceAtMostOnce(Compile(Users), RedactValue, s);
  }

  // ---------------------------------------------------------------------
  // Account numbers

  /** `arn:aws:service:region:` followed by twelve digits and `:`: the digits are masked, everything else is kept. */
  lemma ArnAccountMasked(service: string, region: string, d: string, rest: string)
    requires 0 < |service| && All(service, IsLower)
    requires All(region, IsRegionChar)
    requires |d| == 12 && All(d, IsDigit)
    ensures ApplyRule(Arn, ArnHead + service + ":" + region + ":" + d + ":" + rest)
         == ArnHead + service + ":" + region + ":" + RedactValue + ":" + ApplyRule(Arn, rest)
  {
    ArnMatchesAccount(service, region, d, rest);
    SpliceMask(Arn, ArnHead + service + ":" + region + ":", d, ":", rest);
  }

  /** The ARN rule matches the head, service and region, the twelve digits and the colon after them. */
  lemma ArnMatchesAccount(service: string, region: string, d: string, rest: string)
    requires 0 < |service| && All(service, IsLower)
    requires All(region, IsRegionChar)
    requires |d| == 12 && All(d, IsDigit)
    ensures var p := ArnHead + service + ":" + region + ":";
      MatchAt(Arn, p + d + ":" + rest) == Some(Groups(|p|, |p| + 12, |p| + 13))
  {
    var s := ArnHead + service + ":" + region + ":" + d + ":" + rest;
    var a := |ArnHead| + |service|;
    var b := a + 1 + |region|;
    assert s[..|ArnHead|] == ArnHead;
    RunIs(s, |ArnHead|, IsLower, a);
    RunIs(s, a + 1, IsRegionChar, b);
    assert TwelveDigitsAt(s, b + 1);
  }

  /** The mask holds no digit. */
  lemma MaskHasNoDigit()
    ensures forall i :: 0 <= i < |RedactValue| ==> !IsDigit(RedactValue[i])
  {
  }

  /**
   * Once the account number of an ARN is replaced by text that does not
   * start with a digit, such as the mask, the ARN rule no longer matches
   * there.
   */
  lemma ArnMaskNotRematched(service: string, region: string, m: string, rest: string)
    requires 0 < |service| && All(service, IsLower)
    requires All(region, IsRegionChar)
    requires 0 < |m| && !IsDigit(m[0])
    ensures MatchAt(Arn, ArnHead + service + ":" + region + ":" + m + rest).None?
  {
    var s := ArnHead + service + ":" + region + ":" + m + rest;
    var a := |ArnHead| + |service|;
    var b := a + 1 + |region|;
    assert s[..|ArnHead|] == ArnHead;
    RunIs(s, |ArnHead|, IsLower, a);
    RunIs(s, a + 1, IsRegionChar, b);
    assert s[b + 1] == m[0];
  }

  /**
   * A caption, optional blanks, twelve digits and two more characters (a
   * newline, backslash or `n`, then anything but a newline): the digits are
   * masked, and both extra characters are kept but consumed by the match.
   */
  lemma AccountLabelMasked(caption: string, ws: string, d: string, b: char, c: char, rest: string)
    requires All(ws, IsSpace)
    requires |d| == 12 && All(d, IsDigit)
    requires IsLabelBreak(b) && NotNewline(c)
    ensures ApplyRule(AccountLabel(caption), caption + ws + d + [b, c] + rest)
         == caption + ws + RedactValue + [b, c] + ApplyRule(AccountLabel(caption), rest)
  {
    var s := caption + ws + d + [b, c] + rest;
    var e1 := |caption| + |ws|;
    assert s[..|caption|] == caption;
    RunIs(s, |caption|, IsSpace, e1);
    assert TwelveDigitsAt(s, e1);
    var g := Groups(e1, e1 + 12, e1 + 14);
    ApplyRuleAt(AccountLabel(caption), s, g);
    assert s[..g.e1] == caption + ws && s[g.e2..g.e3] == [b, c] && s[g.e3..] == rest;
  }

  /** Likewise a caption followed by blanks and text that starts with neither a digit nor a blank is not matched. */
  lemma AccountLabelMaskNotRematched(caption: string, ws: string, m: string, rest: string)
    requires All(ws, IsSpace)
    requires 0 < |m| && !IsDigit(m[0]) && !IsSpace(m[0])
    ensures MatchAt(AccountLabel(caption), caption + ws + m + rest).None?
  {
    var s := caption + ws + m + rest;
    var e1 := |caption| + |ws|;
    assert s[..|caption|] == caption;
    RunIs(s, |caption|, IsSpace, e1);
    assert s[e1] == m[0];
  }

  // ---------------------------------------------------------------------
  // The mask under a second pass

  /**
   * The value classes of the flag, JSON, certificate and users rules all
   * admit `*`: where such a rule masked a value, running it again replaces
   * the mask with itself.
   */
  lemma FlagMaskStable(name: string, ws: string, gap: string, rest: string)
    requires 0 < |ws| && All(ws, IsSpace)
    requires All(gap, IsGapChar)
    requires rest == [] || (gap != [] && !IsGapChar(rest[0]))
    ensures ApplyRule(Flag(name), name + ws + RedactValue + gap + rest)
         == name + ws + RedactValue + gap + ApplyRule(Flag(name), rest)
  {
    FlagValueMasked(name, ws, RedactValue, gap, rest);
  }

  lemma JsonMaskStable(key: string, rest: string)
    ensures ApplyRule(JsonKey(key), "\"" + key + "\":\"" + RedactValue + "\"" + rest)
         == "\"" + key + "\":\"" + RedactValue + "\"" + ApplyRule(JsonKey(key), rest)
  {
    JsonValueMasked(key, RedactValue, rest);
  }

  lemma CertMaskStable(rest: string)
    ensures ApplyRule(Cert, CertBegin + RedactValue + CertEnd + rest)
         == CertBegin + RedactValue + CertEnd + ApplyRule(Cert, rest)
  {
    CertBodyMasked(RedactValue, rest);
  }

  /** The escaped JSON output, whose mask is followed by a bare quote, is masked again to itself. */
  lemma EscapedJsonMaskStable(key: string, rest: string)
    ensures ApplyRule(JsonKey(key), "\\\"" + key + "\\\":\\\"" + RedactValue + "\"" + rest)
         == "\\\"" + key + "\\\":\\\"" + RedactValue + "\"" + ApplyRule(JsonKey(key), rest)
  {
    var p := JsonPrefix(key, true, true, true);
    assert p == "\\\"" + key + "\\\":\\\"";
    JsonMatchesValue(key, true, true, true, RedactValue, rest);
    SpliceMask(JsonKey(key), p, RedactValue, "\"", rest);
  }

  /** A masked `--users` secret followed by more text is masked again to itself, and the whole text is unchanged. */
  lemma UsersMaskStable(ws: string, name: string, rest: string)
    requires 0 < |ws| && All(ws, IsSpace)
    requires 0 < |name| && All(name, IsUserChar)
    requires 0 < |rest| && !IsValueChar(rest[0])
    ensures ApplyRule(Users, UsersFlag + ws + name + ":" + RedactValue + rest)
         == UsersFlag + ws + name + ":" + RedactValue + rest
  {
    UsersSecretMasked(ws, name, RedactValue, rest);
  }

  // ---------------------------------------------------------------------
  // Secrets after the first `--users`

  /**
   * Two `--users` options in one text: the users rule masks the first
   * secret and keeps the second, whatever it is, because the suffix group
   * swallows the rest of the text; applying the rule again changes nothing,
   * so the second secret is never masked by this rule.
   */
  lemma UsersLaterSecretLeaks(a: string, v1: string, b: string, v2: string)
    requires 0 < |a| && All(a, IsUserChar)
    requires 0 < |v1| && All(v1, IsValueChar)
    ensures var later := " " + UsersFlag + " " + b + ":" + v2;
      && ApplyRule(Users, UsersFlag + " " + a + ":" + v1 + later) == UsersFlag + " " + a + ":" + RedactValue + later
      && ApplyRule(Users, UsersFlag + " " + a + ":" + RedactValue + later) == UsersFlag + " " + a + ":" + RedactValue + later
  {
    var later := " " + UsersFlag + " " + b + ":" + v2;
    assert All(" ", IsSpace);
    assert later[0] == ' ';
    UsersSecretMasked(" ", a, v1, later);
    UsersMaskStable(" ", a, later);
  }

  // ---------------------------------------------------------------------
  // Bookkeeping. These lemmas only regroup concatenations or settle the
  // empty text, one small fact each, so that the proofs above stay within
  // the verifier's resource limit.

  /** A backslash is not a quote, so it extends a quote-free value. */
  lemma BackslashJoinsValue(v: string)
    requires All(v, NotQuote)
    ensures All(v + "\\", NotQuote)
  {
    assert forall i :: 0 <= i < |v| ==> (v + "\\")[i] == v[i];
  }

  /** The escaped closing quote, read as the value's last character followed by a bare quote. */
  lemma EscapedQuoteSplit(p: string, v: string, rest: string)
    ensures p + v + "\\\"" + rest == p + (v + "\\") + "\"" + rest
  {
    assert "\\\"" == "\\" + "\"";
  }

  /** Appending the empty text changes nothing. */
  lemma EmptyTail(x: string, y: string)
    requires y == []
    ensures x + y == x
  {
  }

  /** The empty text is rewritten to itself. */
  lemma NothingToRewrite(r: Rule)
    ensures ApplyRule(r, []) == []
  {
  }
}
