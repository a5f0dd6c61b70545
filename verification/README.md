# Log redaction rules and delete-service commands

This project models two pieces of the ROSA command-line tool's repository.

**The log-redaction rule table** is in `tests/utils/log/constants.go`. It has two parts:

- `RedactValue` is a mask of thirteen asterisks.
- `RedactKeyList` is an ordered list of thirteen patterns.

Every pattern has three groups: a kept prefix, the sensitive value and a kept suffix. The code that applies `RedactKeyList` is not among the source files. The model assumes it runs the rules in declared order, each rule rewriting the previous rule's output the way Go's `ReplaceAllString` does with the template `${1}` + `RedactValue` + `${3}`:

- every leftmost match is replaced;
- matches do not overlap;
- the search resumes after each match.

The model has three layers:

- **Matchers** (`Rules`). Each of the six shapes of pattern (JSON field, PEM certificate, sensitive flag, `--users`, ARN, account label) has a hand-written matcher at one position. The matcher sits beside a declarative description of the pattern's language. Lemmas prove that the matcher:
  - returns a match of the pattern;
  - finds one whenever one exists;
  - returns the match Go's leftmost-first, greedy matching prefers.
- **Replace-all and the fold** (`Replace`, `Redaction`).
  - The character-by-character scan is proved equal to the reference reading "find the leftmost match, rewrite it, search again after it".
  - The fold over the rule list is `Redaction.Redact`.
- **What the rules do** (`Behaviour`, `Rescan`).
  - Per-rule lemmas state which part of each kind of text is masked and which parts are kept.
  - They cover the edge cases the patterns produce:
    - the escaped-JSON backslash that disappears into the mask;
    - certificate bodies containing `-`, which are not matched;
    - the `--users` suffix, which consumes the rest of the text;
    - the twelve-digit account numbers.

**The delete-service commands** are built by `buildCommands` in `cmd/dlt/service/cmd.go`. It returns two cleanup commands joined by a newline, built from the cluster, which the model reduces to its ID (`DeleteService`).

Three properties one might expect from the table do not hold as written:

- **One pass of the table is not idempotent.** Take `--billing-account --users x:1 --users y:2 z`:
  1. The users rule masks `1`. Its suffix group consumes the rest of the text, so the second `--users` is not searched.
  2. The billing-account flag then masks the word after it, which is `--users`.
  3. A second pass finds the second `--users` option, no longer shadowed, and masks `2` (`Rescan.RedactTwiceDiffers`).
- **A recognised secret can stay in the output.** The users suffix `[\s\S]+` consumes the rest of the text, so in `--users a:p1 --users b:p2` the users rule masks `p1`, keeps `p2` whatever it is, and leaves its own output unchanged when applied again (`Behaviour.UsersLaterSecretLeaks`). In the text above, one pass of the whole table likewise leaves `2` in clear (`Rescan.RedactTwiceDiffers`).
- **The account-label rules alone are not idempotent.** Their suffix `[\n\\n].` eats the first character of the next line's caption. So when two labelled account numbers are on consecutive lines, only the first is masked per pass (`Rescan.AccountLabelNeedsSecondPass`).

What does hold:

- Text on which no rule matches is returned unchanged.
- The users rule masks at most one secret per application (which is why later secrets stay, see above).
- Where a flag, JSON (plain or escaped), certificate or users rule has masked a value, running it again replaces the mask with itself.
- The ARN and account-label rules do not match the mask where they masked digits.

One might expect an escaped JSON field `\"password\":\"secret\"` to become `\"password\":\"*************\"`. The patterns give `\"password\":\"*************"`, because the value class `[^"]` also takes the backslash of the closing `\"`. The model follows the patterns (`Behaviour.EscapedJsonSwallowsBackslash`).

## Model

| member | source | states |
|---|---|---|
| Rules.MatchAtLeftmostFirst | tests/utils/log/constants.go:18-32 | for every rule of the table, any match of its pattern at a position implies the matcher succeeds there and returns the match Go prefers (longest group 1, then longest value, then longest suffix) |
| Rules.MatchAt | tests/utils/log/constants.go:18-32 | whatever the matcher returns is a match of the rule's pattern lying inside the text |
| Rules.JsonKeyLeftmostFirst | tests/utils/log/constants.go:19-20 | the JSON matcher is complete and preferred: the value runs to the first `"` after `\\?"key\\?":\\?"`, so a backslash before that quote belongs to the value |
| Rules.GuessReadsPrefix | tests/utils/log/constants.go:19-20 | on a text that starts with one of the eight spellings of group 1 (each quote optionally escaped), the greedy reading recovers exactly that spelling |
| Rules.CertLeftmostFirst | tests/utils/log/constants.go:21 | a certificate match is unique: header with newline, a body without `-`, the end marker |
| Rules.FlagLeftmostFirst | tests/utils/log/constants.go:22-28 | for each sensitive flag the matcher is complete and its value (no blank, no backslash) and suffix (blanks and backslashes) are the longest possible |
| Rules.MatchUsers | tests/utils/log/constants.go:26 | a `--users` match is a match of the pattern and its suffix group reaches the end of the text |
| Rules.UsersLeftmostFirst | tests/utils/log/constants.go:26 | the users matcher is complete and returns the preferred match, backtracking one character of the secret when the secret ends the text |
| Rules.ArnLeftmostFirst | tests/utils/log/constants.go:29 | an ARN match is unique: `arn:aws:`, service, region, twelve digits, `:` |
| Rules.AccountLabelLeftmostFirst | tests/utils/log/constants.go:30-31 | an account-label match is unique: caption, blanks, twelve digits, a newline/backslash/`n` and one more non-newline character |
| Replace.FirstMatch | tests/utils/log/constants.go:18-32 | the search for the next match returns the least position from i on where the rule matches, or reports that there is none |
| Replace.ScanIsLeftmostSearch | tests/utils/log/constants.go:18-32 | the scan over the text equals repeated leftmost search: find the leftmost match, copy what precedes it, splice in group 1 + mask + group 3, resume after the match |
| Replace.LeftmostMatchRewritten | tests/utils/log/constants.go:18-32 | the leftmost match is rewritten in place and the rest of the text after it is rewritten on its own |
| Replace.NoMatchUnchanged | tests/utils/log/constants.go:18-32 | a text in which a rule matches nowhere comes back unchanged |
| Replace.SkipUnmatched | tests/utils/log/constants.go:18-32 | a leading piece in which no match starts is copied verbatim before the rewritten rest |
| Replace.ReplaceAtMostOnce | tests/utils/log/constants.go:26 | a pattern whose matches run to the end of the text rewrites at most once: the text is unchanged or one non-empty value in it becomes the mask |
| Redaction.ApplyRulesAppend | tests/utils/log/constants.go:18-32 | running two rule lists one after the other is running their concatenation, so the table can be split into stages |
| Redaction.InertRulesKeepText | tests/utils/log/constants.go:18-32 | rules none of which matches anywhere in a text leave it unchanged, in any number |
| Redaction.RedactKeepsUnmatchedText | tests/utils/log/constants.go:18-32 | text on which no rule of the table matches is returned unchanged by redaction |
| Redaction.MatchAtShowsMarker | tests/utils/log/constants.go:18-32 | every match of a rule starts with the rule's fixed word (after one backslash for escaped JSON) |
| Redaction.InertByCount | tests/utils/log/constants.go:18-32 | a text with fewer copies of some character than the rule's fixed word holds has no match of the rule |
| Redaction.SkipPiece | tests/utils/log/constants.go:18-32 | a leading piece too poor in some character of the rule's word, ending in a character foreign to it, is copied through |
| Behaviour.FlagValueMasked | tests/utils/log/constants.go:22-28 | flag, blanks, value and trailing blanks: only the value is masked, the following text is rewritten on its own |
| Behaviour.FlagMatchesValue | tests/utils/log/constants.go:22-28 | the flag pattern matches the name, all the blanks, the whole value and the whole gap after it |
| Behaviour.JsonValueMasked | tests/utils/log/constants.go:19-20 | a plain JSON field keeps both quotes and masks a value that may span lines |
| Behaviour.JsonMatchesValue | tests/utils/log/constants.go:19-20 | after any word of group 1, the JSON pattern takes the value up to the first quote and that quote |
| Behaviour.EscapedJsonSwallowsBackslash | tests/utils/log/constants.go:19-20 | an escaped JSON field loses the backslash of its closing `\"` into the mask, leaving a bare `"` after it |
| Behaviour.CertBodyMasked | tests/utils/log/constants.go:21 | a certificate whose body holds no `-` keeps both markers and masks the body |
| Behaviour.CertMatchesBody | tests/utils/log/constants.go:21 | the certificate pattern matches the header, the whole dash-free body and the end marker |
| Behaviour.CertBodyWithDashNotMatched | tests/utils/log/constants.go:21 | a body with a `-` that does not open the end marker is not matched |
| Behaviour.UsersSecretMasked | tests/utils/log/constants.go:26 | `--users name:secret` masks only the secret and keeps everything after it without searching it |
| Behaviour.UsersMatchesSecret | tests/utils/log/constants.go:26 | the users pattern takes the whole secret as value and the rest of the text as suffix |
| Behaviour.UsersSecretAtEndKeepsLastChar | tests/utils/log/constants.go:26 | a secret ending the text keeps its last character unmasked |
| Behaviour.UsersMatchesAllButLast | tests/utils/log/constants.go:26 | at the end of the text the value stops one character short so that the suffix group gets one |
| Behaviour.UsersOneCharSecretAtEndNotMatched | tests/utils/log/constants.go:26 | a one-character secret ending the text is not matched |
| Behaviour.UsersMasksAtMostOnce | tests/utils/log/constants.go:26 | one application of the users rule masks at most one secret |
| Behaviour.ArnAccountMasked | tests/utils/log/constants.go:29 | in an ARN only the twelve account digits are masked |
| Behaviour.ArnMatchesAccount | tests/utils/log/constants.go:29 | the ARN pattern matches head, service, region, the twelve digits and the colon after them |
| Behaviour.AccountLabelMasked | tests/utils/log/constants.go:30-31 | after a caption only the twelve digits are masked; the two characters after them are kept but consumed |
| Behaviour.MaskHasNoDigit | tests/utils/log/constants.go:8 | the mask holds no digit |
| Behaviour.ArnMaskNotRematched | tests/utils/log/constants.go:29 | once the account number is masked, the ARN rule no longer matches there |
| Behaviour.AccountLabelMaskNotRematched | tests/utils/log/constants.go:30-31 | once the account number is masked, the label rule no longer matches there |
| Behaviour.FlagMaskStable | tests/utils/log/constants.go:22-28 | a masked flag value is masked again to itself |
| Behaviour.JsonMaskStable | tests/utils/log/constants.go:19-20 | the plain output `"key":"*************"` is masked again to itself and the rest rewritten on its own |
| Behaviour.EscapedJsonMaskStable | tests/utils/log/constants.go:19-20 | the escaped output `\"key\":\"*************"` is masked again to itself and the rest rewritten on its own |
| Behaviour.CertMaskStable | tests/utils/log/constants.go:21 | a masked certificate body is masked again to itself |
| Behaviour.UsersMaskStable | tests/utils/log/constants.go:26 | a masked `--users` secret followed by more text leaves the whole text unchanged |
| Behaviour.UsersLaterSecretLeaks | tests/utils/log/constants.go:26 | with two `--users` options the rule masks the first secret and keeps the second, whatever it is, and a second application changes nothing |
| Rescan.AccountLabelNeedsSecondPass | tests/utils/log/constants.go:30-31 | with two labelled numbers on consecutive lines, one pass masks only the first and a second pass changes the text again |
| Rescan.TableCaptionsArePlain | tests/utils/log/constants.go:30-31 | both captions of the table satisfy the conditions of that demonstration |
| Rescan.RedactByStages | tests/utils/log/constants.go:18-32 | redaction is the first seven rules, then the users rule, then the two flags after it, then the last three rules |
| Rescan.OtherRuleInert | tests/utils/log/constants.go:18-32 | on text free of the characters the other rules' words need, every rule but the users rule and the billing-account flag matches nowhere |
| Rescan.RedactNotIdempotent | tests/utils/log/constants.go:26-28 | a second redaction of a redacted text can change it |
| Rescan.RedactTwiceDiffers | tests/utils/log/constants.go:18-32 | `--billing-account --users x:1 --users y:2 z` redacts to `--billing-account ************* x:************* --users y:2 z`, which redacts to `--billing-account ************* x:************* --users y:************* z` |
| DeleteService.JoinTwo | cmd/dlt/service/cmd.go:122 | two lines are joined with exactly one newline and no trailing newline |
| DeleteService.SplitJoin | cmd/dlt/service/cmd.go:122 | lines without a newline are recovered from their join by splitting on newlines |
| DeleteService.JoinSplit | cmd/dlt/service/cmd.go:122 | joining the pieces of any text split on newlines gives the text back |
| DeleteService.CommandsAreTwoLines | cmd/dlt/service/cmd.go:117-123 | for an ID without a newline the output splits into exactly two lines, the operator-roles command then the oidc-provider command, each ending in the ID |
| DeleteService.CommandsLayout | cmd/dlt/service/cmd.go:119-122 | for any ID the output is `\trosa delete operator-roles -c ` + ID, one newline, `\trosa delete oidc-provider -c ` + ID, in that order |
| DeleteService.CommandsLength | cmd/dlt/service/cmd.go:119-122 | the length is both fixed command words, plus one, plus twice the ID's length |
| DeleteService.CommandsNewlines | cmd/dlt/service/cmd.go:119-122 | the output holds one newline of its own plus two per newline of the ID |
| DeleteService.CommandsEnd | cmd/dlt/service/cmd.go:120-122 | the output ends with the blank before the ID and the ID, never with a newline of its own |

## Left out

- The code that applies `RedactKeyList` is not among the source files. The model assumes a fold over the list in declared order, each rule a `ReplaceAllString` with template `${1}` + `RedactValue` + `${3}`.
- Go's `regexp` engine in general: each of the thirteen fixed patterns has a hand-written matcher proved to return Go's leftmost-first match, instead of a verified regular-expression interpreter.
- Bytes versus characters: texts are sequences of characters, which matches Go's UTF-8 handling for valid UTF-8; invalid byte sequences are not modelled.
- The log-level names at tests/utils/log/constants.go:10-16 carry no behaviour.
- The logger that calls the redaction and writes to files or the console: I/O.
- `run` and `init` in cmd/dlt/service/cmd.go: command-line flag wiring, the interactive confirmation prompt, calls to the OCM service over the network, printing and `os.Exit`.
- The cluster object passed to `buildCommands`: reduced to the string its `Id()` returns.
- tests/e2e/test_rosacli_node_pool.go: end-to-end scenarios against a live cluster, with no local logic.
- Idempotence of the whole table: it does not hold as written. `Rescan.RedactTwiceDiffers` and `Rescan.AccountLabelNeedsSecondPass` prove inputs where a second pass changes the text, so no idempotence lemma is stated.
- Non-leakage (no recognised secret appears in the output): it does not hold as written, see `Behaviour.UsersLaterSecretLeaks`; no lemma claims it.
- Rescan.RedactNotIdempotent: shows one input only. It does not characterise every text on which a second pass changes something.
