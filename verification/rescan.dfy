/**
 * Applying the rules a second time can mask more: the suffix groups of the
 * account-label and users patterns consume text that a later match would
 * need, so one pass of the table is not idempotent.
 */
module Rescan {
  import opened Text
  import opened Spans
  import opened Rules
  import opened Replace
  import opened Redaction
  import opened Behaviour

  /** A text of digits holds no other character. */
  lemma DigitsHoldNo(d: string, c: char)
    requires All(d, IsDigit) && !IsDigit(c)
    ensures Count(d, c) == 0
  {
    assert c !in d;
  }

  /** The first character of s occurs once more in s than in the rest of s. */
  lemma CountHead(s: string)
    requires 0 < |s|
    ensures Count(s, s[0]) == Count(s[1..], s[0]) + 1
  {
    assert s == [s[0]] + s[1..];
    assert multiset(s) == multiset([s[0]]) + multiset(s[1..]);
  }

  /** What a caption needs for the demonstration below: a first character foreign to the filler text, and no newline. */
  predicate PlainCaption(cap: string) {
    && 0 < |cap|
    && !IsDigit(cap[0]) && cap[0] !in " *\n."
    && '\n' !in cap
  }

  /**
   * Two labelled account numbers on consecutive lines: the suffix `[\n\\n].`
   * of the first match eats the first character of the second caption, so
   * the second number is masked only by a second application of the rule.
   */
  lemma AccountLabelNeedsSecondPass(cap: string, d1: string, d2: string)
    requires PlainCaption(cap)
    requires |d1| == 12 && All(d1, IsDigit)
    requires |d2| == 12 && All(d2, IsDigit)
    ensures var r := AccountLabel(cap);
      var once := ApplyRule(r, cap + " " + d1 + "\n" + cap + " " + d2 + "\n.");
      && once == cap + " " + RedactValue + "\n" + cap + " " + d2 + "\n."
      && ApplyRule(r, once) == cap + " " + RedactValue + "\n" + cap + " " + RedactValue + "\n."
      && ApplyRule(r, once) != once
  {
    LabelFirstPass(cap, d1, d2);
    LabelSecondPass(cap, d2);
    var k := |cap| + 15 + |cap| + 1;
    var once := cap + " " + RedactValue + "\n" + cap + " " + d2 + "\n.";
    var twice := cap + " " + RedactValue + "\n" + cap + " " + RedactValue + "\n.";
    assert once[k] == d2[0] && twice[k] == '*';
  }

  /** Both captions of the table meet those conditions, so both label rules need a second pass on such text. */
  lemma TableCaptionsArePlain()
    ensures RedactKeyList[11] == AccountLabel("AWS Account:") && PlainCaption(RedactKeyList[11].caption)
    ensures RedactKeyList[12] == AccountLabel("AWS Billing Account:") && PlainCaption(RedactKeyList[12].caption)
  {
  }

  /** The first pass masks the first number only. */
  lemma LabelFirstPass(cap: string, d1: string, d2: string)
    requires PlainCaption(cap)
    requires |d1| == 12 && All(d1, IsDigit)
    requires |d2| == 12 && All(d2, IsDigit)
    ensures ApplyRule(AccountLabel(cap), cap + " " + d1 + "\n" + cap + " " + d2 + "\n.")
         == cap + " " + RedactValue + "\n" + cap + " " + d2 + "\n."
  {
    var r := AccountLabel(cap);
    var c := cap[0];
    var rest := cap[1..] + " " + d2 + "\n.";
    assert cap == [c] + cap[1..];
    assert cap + " " + d1 + "\n" + cap + " " + d2 + "\n." == cap + " " + d1 + ['\n', c] + rest;
    AccountLabelMasked(cap, " ", d1, '\n', c, rest);
    DigitsHoldNo(d2, c);
    assert Count(rest, c) == Count(cap[1..], c) by {
      assert multiset(rest) == multiset(cap[1..]) + multiset(" ") + multiset(d2) + multiset("\n.");
    }
    CountHead(cap);
    InertByCount(r, rest, c);
    InertRuleKeepsText(r, rest);
    FirstPassShape(cap, RedactValue, d2);
  }

  /** A masked number no longer matches. */
  lemma MaskedLabelNotMatched(cap: string, t: string)
    ensures MatchAt(AccountLabel(cap), cap + " " + RedactValue + t).None?
  {
    var s := cap + " " + RedactValue + t;
    assert s[..|cap|] == cap;
    RunIs(s, |cap|, IsSpace, |cap| + 1);
    assert !IsDigit(s[|cap| + 1]);
  }

  /** The piece between the two numbers holds one copy fewer of the caption's first character than the caption. */
  lemma GapPieceCount(cap: string)
    requires PlainCaption(cap)
    ensures Count(cap[1..] + " " + RedactValue + "\n", cap[0]) < Count(cap, cap[0])
  {
    var c := cap[0];
    assert multiset(cap[1..] + " " + RedactValue + "\n") == multiset(cap[1..]) + multiset(" ") + multiset(RedactValue) + multiset("\n");
    assert c !in RedactValue;
    CountHead(cap);
  }

  /** In the second pass, nothing matches before the second caption. */
  lemma SecondPassReachesSecondLabel(cap: string, d2: string)
    requires PlainCaption(cap)
    ensures var a := cap[1..] + " " + RedactValue + "\n";
      var b := cap + " " + d2 + ['\n', '.'] + [];
      ApplyRule(AccountLabel(cap), cap + " " + RedactValue + "\n" + cap + " " + d2 + "\n.") == [cap[0]] + a + ApplyRule(AccountLabel(cap), b)
  {
    var a := cap[1..] + " " + RedactValue + "\n";
    var b := cap + " " + d2 + ['\n', '.'] + [];
    SecondPassSkipsCaptionHead(cap, d2);
    SecondPassSkipsGap(cap, b);
  }

  /** The first character of the masked line is copied. */
  lemma SecondPassSkipsCaptionHead(cap: string, d2: string)
    requires PlainCaption(cap)
    ensures var once := cap + " " + RedactValue + "\n" + cap + " " + d2 + "\n.";
      ApplyRule(AccountLabel(cap), once) == [cap[0]] + ApplyRule(AccountLabel(cap), (cap[1..] + " " + RedactValue + "\n") + (cap + " " + d2 + ['\n', '.'] + []))
  {
    var once := cap + " " + RedactValue + "\n" + cap + " " + d2 + "\n.";
    SecondPassInput(cap, RedactValue, d2);
    MaskedLabelNotMatched(cap, "\n" + cap + " " + d2 + "\n.");
    ApplyRuleSkipsOne(AccountLabel(cap), once);
  }

  /** The rest of the masked line, up to the second caption, is copied. */
  lemma SecondPassSkipsGap(cap: string, b: string)
    requires PlainCaption(cap)
    ensures var a := cap[1..] + " " + RedactValue + "\n";
      ApplyRule(AccountLabel(cap), a + b) == a + ApplyRule(AccountLabel(cap), b)
  {
    var a := cap[1..] + " " + RedactValue + "\n";
    GapPieceCount(cap);
    EndsInNewline(cap[1..] + " " + RedactValue);
    SkipLabelPiece(cap, a, b);
  }

  /** A piece ending in a newline, with fewer copies of the caption's first character than the caption, is copied. */
  lemma SkipLabelPiece(cap: string, a: string, b: string)
    requires 0 < |cap| && '\n' !in cap
    requires Count(a, cap[0]) < Count(cap, cap[0])
    requires 0 < |a| && a[|a| - 1] == '\n'
    ensures ApplyRule(AccountLabel(cap), a + b) == a + ApplyRule(AccountLabel(cap), b)
  {
    assert Marker(AccountLabel(cap)) == cap;
    SkipPiece(AccountLabel(cap), a, b, cap[0]);
  }

  /** The second pass masks the second number. */
  lemma LabelSecondPass(cap: string, d2: string)
    requires PlainCaption(cap)
    requires |d2| == 12 && All(d2, IsDigit)
    ensures ApplyRule(AccountLabel(cap), cap + " " + RedactValue + "\n" + cap + " " + d2 + "\n.")
         == cap + " " + RedactValue + "\n" + cap + " " + RedactValue + "\n."
  {
    var r := AccountLabel(cap);
    SecondPassReachesSecondLabel(cap, d2);
    AccountLabelMasked(cap, " ", d2, '\n', '.', []);
    assert ApplyRule(r, []) == [];
    SecondPassShape(cap, RedactValue, "\n.");
  }

  // ---------------------------------------------------------------------
  // The whole table

  /** The table in stages: the seven rules before the users rule, the users rule, the two flags after it, and the rest. */
  lemma RedactByStages(s: string)
    ensures Redact(s) == ApplyRules(RedactKeyList[10..], ApplyRule(RedactKeyList[9], ApplyRule(RedactKeyList[8], ApplyRule(Users, ApplyRules(RedactKeyList[..7], s)))))
  {
    var l := RedactKeyList;
    assert l == l[..7] + ([l[7]] + ([l[8]] + ([l[9]] + l[10..])));
    assert l[7] == Users;
    ApplyRulesAppend(l[..7], [l[7]] + ([l[8]] + ([l[9]] + l[10..])), s);
    var s1 := ApplyRules(l[..7], s);
    ApplyRulesAppend([l[7]], [l[8]] + ([l[9]] + l[10..]), s1);
    var s2 := ApplyRule(l[7], s1);
    assert ApplyRules([l[7]], s1) == ApplyRules([], s2) == s2;
    ApplyRulesAppend([l[8]], [l[9]] + l[10..], s2);
    var s3 := ApplyRule(l[8], s2);
    assert ApplyRules([l[8]], s2) == s3;
    ApplyRulesAppend([l[9]], l[10..], s3);
    assert ApplyRules([l[9]], s3) == ApplyRule(l[9], s3);
  }

  /** Free of every character that the markers of the other rules of the table start from. */
  predicate Plain(s: string) {
    '"' !in s && 'B' !in s && 'p' !in s && 'd' !in s && 'w' !in s && 'A' !in s
  }

  /** A character absent from s cannot make up a marker that holds it. */
  lemma InertByAbsence(r: Rule, s: string, c: char)
    requires c !in s && c in Marker(r)
    ensures Inert(r, s)
  {
    assert Count(Marker(r), c) > 0;
    InertByCount(r, s, c);
  }

  /** On plain text with at most one `t`, every rule but the users rule and the billing-account flag matches nowhere. */
  lemma OtherRuleInert(s: string, i: nat)
    requires Plain(s) && Count(s, 't') <= 1
    requires i < 13 && i != 7 && i != 9
    ensures Inert(RedactKeyList[i], s)
  {
    if i == 0 {
      InertByAbsence(RedactKeyList[0], s, '"');
    } else if i == 1 {
      InertByAbsence(RedactKeyList[1], s, '"');
    } else if i == 2 {
      InertByAbsence(RedactKeyList[2], s, 'B');
    } else if i == 3 {
      InertByAbsence(RedactKeyList[3], s, 'p');
    } else if i == 4 {
      InertByAbsence(RedactKeyList[4], s, 'd');
    } else if i == 5 {
      InertByAbsence(RedactKeyList[5], s, 'p');
    } else if i == 6 {
      ClientSecretCount();
      InertByCount(RedactKeyList[6], s, 't');
    } else if i == 8 {
      InertByAbsence(RedactKeyList[8], s, 'p');
    } else if i == 10 {
      InertByAbsence(RedactKeyList[10], s, 'w');
    } else if i == 11 {
      InertByAbsence(RedactKeyList[11], s, 'A');
    } else {
      InertByAbsence(RedactKeyList[12], s, 'A');
    }
  }

  lemma ClientSecretCount()
    ensures Count(Marker(RedactKeyList[6]), 't') == 2
  {
    ClientSecretSpelled();
    assert 't' !in "--clien" && 't' !in "-secre";
    TwoCopies("--clien", "-secre", 't');
  }

  lemma ClientSecretSpelled()
    ensures Marker(RedactKeyList[6]) == "--clien" + "t" + "-secre" + "t"
  {
    assert RedactKeyList[6] == Flag("--client-secret");
  }

  /** Two pieces without c, each followed by one c, hold c exactly twice. */
  lemma TwoCopies(a: string, b: string, c: char)
    requires c !in a && c !in b
    ensures Count(a + [c] + b + [c], c) == 2
  {
    assert multiset(a + [c] + b + [c]) == multiset(a) + multiset([c]) + multiset(b) + multiset([c]);
  }

  const Billing: string := "--billing-account"

  /** The second `--users` option, with the blank before it. */
  function Second(v: string): string { UsersFlag + " " + "y" + ":" + v + " z" }

  /** Input: the billing-account flag, then two `--users` options (`--billing-account --users x:1 --users y:2 z`). */
  function Text0(): string { Billing + " " + (UsersFlag + " " + "x" + ":" + "1" + (" " + Second("2"))) }
  /** After the users rule of the first pass. */
  function Text1(): string { Billing + " " + (UsersFlag + " " + "x" + ":" + RedactValue + (" " + Second("2"))) }
  /** After the first pass: the first secret and the first `--users` are masked. */
  function Text2(): string { Billing + " " + RedactValue + " " + ("x" + ":" + RedactValue + (" " + Second("2"))) }
  /** After the second pass: the second secret is masked as well. */
  function Text3(): string { Billing + " " + RedactValue + " " + ("x" + ":" + RedactValue + (" " + Second(RedactValue))) }

  lemma BillingFacts()
    ensures Plain(Billing) && Count(Billing, 't') == 1
    ensures 's' !in Billing && 'b' in Billing
  {
    var h, e := BillingSplit();
    PiecesFacts(Billing, h, e);
  }

  lemma PiecesFacts(b: string, h: string, e: string)
    requires b == h + e + "t" && 'b' in h
    requires Plain(h) && 't' !in h && 's' !in h
    requires Plain(e) && 't' !in e && 's' !in e
    ensures Plain(b) && Count(b, 't') == 1
    ensures 's' !in b && 'b' in b
  {
    assert Count(h, 't') == 0 && Count(e, 't') == 0;
    PlainAppend(h, e);
    PlainAppend(h + e, "t");
  }

  /** The flag name cut just before its only `t`. */
  lemma BillingSplit() returns (h: string, e: string)
    ensures Billing == h + e + "t" && 'b' in h
    ensures Plain(h) && 't' !in h && 's' !in h
    ensures Plain(e) && 't' !in e && 's' !in e
  {
    h, e := "--billing-", "accoun";
    BillingPieces(h, e);
    BillingHeadFacts(h);
    BillingMidFacts(e);
  }

  /** Concatenation keeps plainness and adds up counts. */
  lemma PlainAppend(a: string, b: string)
    ensures Plain(a + b) <==> Plain(a) && Plain(b)
    ensures forall c :: Count(a + b, c) == Count(a, c) + Count(b, c)
  {
    assert multiset(a + b) == multiset(a) + multiset(b);
  }

  /** Plain text with at most one `t`: the table reduces to the users rule and the billing-account flag. */
  lemma QuietRules(s: string)
    requires Plain(s) && Count(s, 't') <= 1
    ensures ApplyRules(RedactKeyList[..7], s) == s
    ensures ApplyRule(RedactKeyList[8], s) == s
    ensures ApplyRules(RedactKeyList[10..], s) == s
  {
    forall i | 0 <= i < 7
      ensures Inert(RedactKeyList[..7][i], s)
    {
      OtherRuleInert(s, i);
    }
    InertRulesKeepText(RedactKeyList[..7], s);
    OtherRuleInert(s, 8);
    InertRuleKeepsText(RedactKeyList[8], s);
    forall i | 0 <= i < 3
      ensures Inert(RedactKeyList[10..][i], s)
    {
      OtherRuleInert(s, 10 + i);
    }
    InertRulesKeepText(RedactKeyList[10..], s);
  }

  /** A `--users` option after a blank that follows a piece without `s`: its secret is masked, the rest kept. */
  lemma UsersAfter(b: string, name: string, v: string, rest: string)
    requires 's' !in b
    requires 0 < |name| && All(name, IsUserChar)
    requires 0 < |v| && All(v, IsValueChar)
    requires 0 < |rest| && !IsValueChar(rest[0])
    ensures ApplyRule(Users, b + " " + (UsersFlag + " " + name + ":" + v + rest))
         == b + " " + (UsersFlag + " " + name + ":" + RedactValue + rest)
  {
    UsersFlagFacts();
    var a := b + " ";
    assert a[|a| - 1] == ' ';
    assert Count(a, 's') == 0;
    SkipPiece(Users, a, UsersFlag + " " + name + ":" + v + rest, 's');
    UsersSecretMasked(" ", name, v, rest);
  }

  /** The billing-account flag with a value and a blank, followed by text without `b`: only the value is masked. */
  lemma BillingAt(v: string, after: string)
    requires 0 < |v| && All(v, IsValueChar)
    requires 'b' !in after && 0 < |after| && !IsGapChar(after[0])
    ensures ApplyRule(RedactKeyList[9], Billing + " " + v + " " + after) == Billing + " " + RedactValue + " " + after
  {
    assert RedactKeyList[9] == Flag(Billing);
    FlagValueMasked(Billing, " ", v, " ", after);
    NoBillingAfter(after);
  }

  lemma NoBillingAfter(after: string)
    requires 'b' !in after
    ensures ApplyRule(Flag(Billing), after) == after
  {
    BillingFacts();
    FlagInertWithout(Billing, 'b', after);
  }

  /** A flag rule leaves alone text that lacks a character of the flag's name. */
  lemma FlagInertWithout(name: string, c: char, after: string)
    requires c in name && c !in after
    ensures ApplyRule(Flag(name), after) == after
  {
    InertByAbsence(Flag(name), after, c);
    InertRuleKeepsText(Flag(name), after);
  }

  /** Plain and free of `t`. */
  predicate Quiet(s: string) {
    Plain(s) && 't' !in s
  }

  lemma QuietAppend(a: string, b: string)
    requires Quiet(a) && Quiet(b)
    ensures Quiet(a + b)
  {
    PlainAppend(a, b);
  }

  /** Appending quiet text keeps a text plain with at most one `t`. */
  lemma Extend(a: string, p: string)
    requires Plain(a) && Count(a, 't') <= 1 && Quiet(p)
    ensures Plain(a + p) && Count(a + p, 't') <= 1
  {
    PlainAppend(a, p);
  }

  lemma SecondQuiet(v: string)
    requires Quiet(v)
    ensures Quiet(Second(v))
  {
    ShortQuiet();
    UsersFlagFacts();
    QuietAppend(UsersFlag, " ");
    QuietAppend(UsersFlag + " ", "y");
    QuietAppend(UsersFlag + " " + "y", ":");
    QuietAppend(UsersFlag + " " + "y" + ":", v);
    QuietAppend(UsersFlag + " " + "y" + ":" + v, " z");
  }

  /** Each text is the flag name followed by quiet text. */
  lemma TextsPlain()
    ensures Plain(Text0()) && Count(Text0(), 't') <= 1
    ensures Plain(Text1()) && Count(Text1(), 't') <= 1
    ensures Plain(Text2()) && Count(Text2(), 't') <= 1
    ensures Plain(Text3()) && Count(Text3(), 't') <= 1
  {
    var m := RedactValue;
    BillingFacts();
    UsersFlagFacts();
    MaskFacts();
    ShortQuiet();
    SecondQuiet("2");
    SecondQuiet(m);
    var tail := " " + Second("2");
    QuietAppend(" ", Second("2"));
    Extend(Billing, " ");
    var u := UsersFlag + " " + "x" + ":";
    QuietAppend(UsersFlag, " ");
    QuietAppend(UsersFlag + " ", "x");
    QuietAppend(UsersFlag + " " + "x", ":");
    QuietAppend(u, "1");
    QuietAppend(u + "1", tail);
    Extend(Billing + " ", u + "1" + tail);
    QuietAppend(u, m);
    QuietAppend(u + m, tail);
    Extend(Billing + " ", u + m + tail);
    Extend(Billing + " ", m);
    Extend(Billing + " " + m, " ");
    QuietAppend("x", ":");
    QuietAppend("x" + ":", m);
    QuietAppend("x" + ":" + m, tail);
    Extend(Billing + " " + m + " ", "x" + ":" + m + tail);
    QuietAppend(" ", Second(m));
    QuietAppend("x" + ":" + m, " " + Second(m));
    Extend(Billing + " " + m + " ", "x" + ":" + m + (" " + Second(m)));
  }

  lemma RegroupFlag(a: string, u: string, x: string, c: string, m: string, t: string)
    ensures a + (u + " " + x + c + m + t) == a + u + " " + (x + c + m + t)
  {
  }

  lemma RegroupBeforeSecond(a: string, p: string, s: string)
    ensures a + (p + (" " + s)) == a + p + " " + s
  {
  }

  lemma UsersArgs(name: string, v: string, rest: string)
    requires (name == "x" && v == "1" && rest == " " + Second("2")) || (name == "y" && v == "2" && rest == " z")
    ensures 0 < |name| && All(name, IsUserChar)
    ensures 0 < |v| && All(v, IsValueChar)
    ensures 0 < |rest| && !IsValueChar(rest[0])
  {
  }

  /** First pass, users rule: the first secret is masked and the second option is not reached. */
  lemma FirstUsersStep()
    ensures ApplyRule(Users, Text0()) == Text1()
  {
    BillingFacts();
    UsersArgs("x", "1", " " + Second("2"));
    UsersAfter(Billing, "x", "1", " " + Second("2"));
  }

  /** First pass, billing-account flag: `--users`, the word after the flag, is masked. */
  lemma FirstBillingStep()
    ensures ApplyRule(RedactKeyList[9], Text1()) == Text2()
  {
    var t := " " + Second("2");
    RegroupFlag(Billing + " ", UsersFlag, "x", ":", RedactValue, t);
    UsersFlagFacts();
    MaskFacts();
    BillingAt(UsersFlag, "x" + ":" + RedactValue + t);
  }

  /** Second pass, users rule: the first option has lost its flag, so the second secret is masked now. */
  lemma SecondUsersStep()
    ensures ApplyRule(Users, Text2()) == Text3()
  {
    NoSBeforeSecond();
    UsersBeforeSecond(Billing + " " + RedactValue + " ", "x" + ":" + RedactValue);
  }

  lemma NoSBeforeSecond()
    ensures 's' !in Billing + " " + RedactValue + " " + ("x" + ":" + RedactValue)
  {
    BillingFacts();
    MaskFacts();
    NoSIn(Billing, RedactValue);
  }

  lemma NoSIn(b: string, m: string)
    requires 's' !in b && 's' !in m
    ensures 's' !in b + " " + m + " " + ("x" + ":" + m)
  {
  }

  lemma UsersBeforeSecond(a: string, p: string)
    requires 's' !in a + p
    ensures ApplyRule(Users, a + (p + (" " + Second("2")))) == a + (p + (" " + Second(RedactValue)))
  {
    RegroupBeforeSecond(a, p, Second("2"));
    RegroupBeforeSecond(a, p, Second(RedactValue));
    UsersArgs("y", "2", " z");
    UsersAfter(a + p, "y", "2", " z");
  }

  /** Second pass, billing-account flag: it masks the mask again, which changes nothing. */
  lemma SecondBillingStep()
    ensures ApplyRule(RedactKeyList[9], Text3()) == Text3()
  {
    UsersFlagFacts();
    MaskFacts();
    BillingAt(RedactValue, "x" + ":" + RedactValue + (" " + Second(RedactValue)));
  }

  /**
   * On plain text with at most one `t`, when the users rule and then the
   * billing-account flag take s0 to s1 and s1 to s2 (both plain), the whole
   * table takes s0 to s2.
   */
  lemma RedactPlainText(s0: string, s1: string, s2: string)
    requires Plain(s0) && Count(s0, 't') <= 1
    requires Plain(s1) && Count(s1, 't') <= 1
    requires Plain(s2) && Count(s2, 't') <= 1
    requires ApplyRule(Users, s0) == s1 && ApplyRule(RedactKeyList[9], s1) == s2
    ensures Redact(s0) == s2
  {
    RedactByStages(s0);
    QuietRules(s0);
    QuietRules(s1);
    QuietRules(s2);
  }

  lemma FirstPass()
    ensures Redact(Text0()) == Text2()
  {
    TextsPlain();
    FirstUsersStep();
    FirstBillingStep();
    RedactPlainText(Text0(), Text1(), Text2());
  }

  lemma SecondPass()
    ensures Redact(Text2()) == Text3()
  {
    TextsPlain();
    SecondUsersStep();
    SecondBillingStep();
    RedactPlainText(Text2(), Text3(), Text3());
  }

  /**
   * The table is not idempotent: redacting
   * `--billing-account --users x:1 --users y:2 z` masks `1` and `--users`
   * but not `2`, and redacting that output again masks `2`.
   */
  lemma RedactNotIdempotent()
    ensures Redact(Text0()) == Text2()
    ensures Redact(Redact(Text0())) == Text3()
    ensures Redact(Redact(Text0())) != Redact(Text0())
  {
    FirstPass();
    SecondPass();
    assert |Text3()| == |Text2()| + 12;
  }

  /** The three texts of the counterexample, written out. */
  lemma Text0SpelledOut()
    ensures Text0() == "--billing-account --users x:1 --users y:2 z"
  {
  }

  lemma Text2SpelledOut()
    ensures Text2() == "--billing-account ************* x:************* --users y:2 z"
  {
    SecondSpelled("2");
    SpellJoin(RedactValue, " --users y:2 z");
    Text2Literal();
  }

  lemma Text3SpelledOut()
    ensures Text3() == "--billing-account ************* x:************* --users y:************* z"
  {
    var m := RedactValue;
    SecondSpelled(m);
    SpellJoin(m, " --users y:" + m + " z");
    Text3Literal();
  }

  /** The counterexample on the texts themselves. */
  lemma RedactTwiceDiffers()
    ensures Redact("--billing-account --users x:1 --users y:2 z") == "--billing-account ************* x:************* --users y:2 z"
    ensures Redact("--billing-account ************* x:************* --users y:2 z") == "--billing-account ************* x:************* --users y:************* z"
  {
    Text0SpelledOut();
    Text2SpelledOut();
    Text3SpelledOut();
    FirstPass();
    SecondPass();
  }

  // ---------------------------------------------------------------------
  // Bookkeeping. These lemmas only regroup concatenations or spell out
  // literal pieces, one small fact each, so that the proofs above stay
  // within the verifier's resource limit; they state nothing about the rules.

  /** Regrouping of the first pass's output. */
  lemma FirstPassShape(cap: string, mask: string, d: string)
    requires 0 < |cap|
    ensures cap + " " + mask + ['\n', cap[0]] + (cap[1..] + " " + d + "\n.") == cap + " " + mask + "\n" + cap + " " + d + "\n."
  {
    assert ['\n', cap[0]] + cap[1..] == "\n" + cap;
  }

  /** Regrouping of the second pass's input. */
  lemma SecondPassInput(cap: string, mask: string, d: string)
    requires 0 < |cap|
    ensures var once := cap + " " + mask + "\n" + cap + " " + d + "\n.";
      && once == cap + " " + mask + ("\n" + cap + " " + d + "\n.")
      && once[0] == cap[0]
      && once[1..] == (cap[1..] + " " + mask + "\n") + (cap + " " + d + ['\n', '.'] + [])
  {
    var once := cap + " " + mask + "\n" + cap + " " + d + "\n.";
    assert once == [cap[0]] + ((cap[1..] + " " + mask + "\n") + (cap + " " + d + ['\n', '.'] + []));
  }

  /** Regrouping of the second pass's output. */
  lemma SecondPassShape(cap: string, mask: string, tail: string)
    requires 0 < |cap|
    ensures [cap[0]] + (cap[1..] + " " + mask + "\n") + (cap + " " + mask + tail) == cap + " " + mask + "\n" + cap + " " + mask + tail
  {
    assert [cap[0]] + cap[1..] == cap;
  }

  lemma EndsInNewline(x: string)
    ensures (x + "\n")[|x + "\n"| - 1] == '\n'
  {
  }

  lemma BillingPieces(h: string, e: string)
    requires h == "--billing-" && e == "accoun"
    ensures Billing == h + e + "t" && 'b' in h
  {
  }

  lemma BillingHeadFacts(h: string)
    requires h == "--billing-"
    ensures Plain(h) && 't' !in h && 's' !in h
  {
  }

  lemma BillingMidFacts(e: string)
    requires e == "accoun"
    ensures Plain(e) && 't' !in e && 's' !in e
  {
  }

  lemma UsersFlagFacts()
    ensures Plain(UsersFlag) && 't' !in UsersFlag && 'b' !in UsersFlag && 's' in UsersFlag
  {
  }

  lemma MaskFacts()
    ensures Plain(RedactValue) && 't' !in RedactValue && 's' !in RedactValue && 'b' !in RedactValue
  {
  }

  lemma ShortQuiet()
    ensures Quiet(" ") && Quiet("x") && Quiet(":") && Quiet("1") && Quiet("y") && Quiet("2") && Quiet(" z")
  {
  }

  lemma SecondSpelled(v: string)
    ensures " " + Second(v) == " --users y:" + v + " z"
  {
  }

  lemma Text2Literal()
    ensures "--billing-account " + RedactValue + " x:" + RedactValue + " --users y:2 z" == "--billing-account ************* x:************* --users y:2 z"
  {
  }

  lemma Text3Literal()
    ensures "--billing-account " + RedactValue + " x:" + RedactValue + " --users y:" + RedactValue + " z" == "--billing-account ************* x:************* --users y:************* z"
  {
    var m := RedactValue;
    SpellTail(m, " z");
    Text3Head();
    assert m + " z" == "************* z";
  }

  lemma Text3Head()
    ensures "--billing-account " + RedactValue + " x:" + RedactValue + " --users y:" == "--billing-account ************* x:************* --users y:"
  {
  }

  lemma SpellTail(m: string, z: string)
    ensures "--billing-account " + m + " x:" + m + " --users y:" + m + z == ("--billing-account " + m + " x:" + m + " --users y:") + (m + z)
  {
  }

  lemma SpellJoin(m: string, t: string)
    ensures Billing + " " + m + " " + ("x" + ":" + m + t) == "--billing-account " + m + " x:" + m + t
  {
  }
}
