# HtmlValidator in Dafny

This project models `HtmlValidator`, the markup validator of the repository. A
validator is built once over a list of allowed tag patterns. `validate(text)`
then answers `true` or `false`. It runs two checks in order, and either
exception turns the answer into `false`:

1. **Allowed-tag check** (`checkAllowedTags`, `combineAllowedTagsPatterns`).
   The patterns are joined with `|` into one case-insensitive alternation. The
   check fails only when that alternation matches nowhere in the text.
2. **Nesting check** (`checkTagClosureAndNesting`, `extractTags`,
   `validateTagNesting`, `checkLastClosedTagMatchCurrentTag`, `isClosingTag`).
   The tags found by the expression `/<\/?([a-z]+)(?: [^>]+)?>/i` are run
   through a stack of open names. A closing tag must match the top entry,
   compared case-sensitively, and the stack must be empty at the end.

Modules, one per part of the program:

- `Outcomes`: `Option` and `Outcome` (pass, or fail with an error).
- `TagScanner`: the tag expression as a predicate on positions (`IsTagAt`),
  the anchored attempt (`MatchAt`), the left-to-right scan of `preg_match_all`
  (`MatchesFrom`), `extractTags` and `isClosingTag`.
- `Nesting`: the stack machine of `validateTagNesting`, written as a loop, and
  a grammar of balanced tag sequences. It is proved that the machine accepts
  exactly the grammar and reports exactly the names left open.
- `Whitelist`: tag patterns as alternations of literal text, with `\`
  escapes. Matching is "some alternative occurs somewhere, ignoring ASCII
  case".
- `HtmlValidation`: the class `HtmlValidator` with its one field, the
  constructor, both checks and `Validate`.
- `HtmlPatterns`: the five tag-pattern constants and what each stands for.
- `Markup`: markup built from pieces (text, opening tags with attributes,
  closing tags). Scanning rendered markup gives back exactly its tags.
- `DemoCases`: the verdicts for the texts of `app/index.php`, with the five
  tag patterns as the whitelist.

Where the code departs from what a tag whitelist is usually expected to do, the model follows the code:

- **Empty whitelist.** One would expect an empty tag whitelist to reject
  every tag. In the code, `implode` of no patterns gives `/()/i`. That matches the
  empty string, so the allowed-tag check passes every text
  (`EmptyWhitelistPassesEverything`).
- **Allowed tags.** One would expect every scanned tag to need a place in
  the whitelist. The code only asks that some allowed form occurs somewhere. So
  `<div>x</div><a href="https://x.com">x</a>` is accepted
  (`DivThenLinkAccepted`), and a text without any `<` is rejected
  (`TagFreeTextRejected`).
- **Attributes.** The code never checks attributes. The
  `data-test` text that `app/index.php:25` expects to fail is accepted
  (`LinkWithDataTestAccepted`).
- **Tag-name case.** HTML tag names are case-insensitive. The nesting
  check compares them with `!==`, so `<b></B>` does not nest. The model
  compares names exactly.
- **The demonstration's arguments.** `app/index.php` passes two arrays to the
  variadic constructor and names constants (`TAG_A_PATTERN`, …) that
  `HtmlPatterns` does not define. The demonstration cases use the five
  `HtmlPatterns` constants (`TAG_A`, `TAG_I`, `TAG_CODE`, `TAG_STRIKE`,
  `TAG_STRONG`), in the script's order, as the whitelist.

## Model

| member | source | states |
|---|---|---|
| TagScanner.LetterRunEnd | app/lib/validators/HtmlValidator.php:22 | `[a-z]+` under the `i` flag is greedy: the run holds only ASCII letters of either case and stops before a non-letter |
| TagScanner.FirstCloseAngle | app/lib/validators/HtmlValidator.php:22 | `[^>]+` runs up to the first `>` and holds no `>` |
| TagScanner.MatchAt | app/lib/validators/HtmlValidator.php:22 | the expression tried at one position gives a match starting there, and gives none only when no match of the expression starts there |
| TagScanner.TagAtUnique | app/lib/validators/HtmlValidator.php:22 | at most one match starts at a position: the name is the whole letter run and the match ends at the first `>` after it |
| TagScanner.MatchesFrom | app/lib/validators/HtmlValidator.php:92 | preg_match_all's matches are matches of the expression, in left-to-right order and non-overlapping |
| TagScanner.MatchesFromComplete | app/lib/validators/HtmlValidator.php:92 | no match is skipped: every match of the expression is found by the scan unless it begins inside a match the scan found |
| TagScanner.ScanTakesTag | app/lib/validators/HtmlValidator.php:92 | where a match begins, the scan takes it and resumes after its end |
| TagScanner.SkipPlainText | app/lib/validators/HtmlValidator.php:92 | text without `<` adds no match to the scan |
| TagScanner.TokenOf | app/lib/validators/HtmlValidator.php:92 | one `PREG_SET_ORDER` entry: the whole match and the name group, each as long as its span, with the name lying inside the match at its own offset |
| TagScanner.ExtractTags | app/lib/validators/HtmlValidator.php:90-95 | one token per match, in order; each holds the match's text and its name group; text with no `<` gives no tokens |
| TagScanner.TagAtTransport | app/lib/validators/HtmlValidator.php:22 | whether a match lies somewhere depends only on the characters it covers |
| TagScanner.ScanTagThenText | app/lib/validators/HtmlValidator.php:92 | a match followed by text without `<` contributes exactly that match |
| TagScanner.ScanTilesFrom | app/lib/validators/HtmlValidator.php:92 | text cut into matches separated by `<`-free text scans, from any of those matches on, into exactly the remaining matches |
| TagScanner.ScanOfTiles | app/lib/validators/HtmlValidator.php:90-95 | text cut into matches separated by `<`-free text yields exactly those matches as tokens |
| TagScanner.IsClosingTag | app/lib/validators/HtmlValidator.php:140-143 | a text shorter than two characters is never closing (the offset reads as the empty string); a text starting with `<` is closing exactly when it starts with `</` |
| TagScanner.ClosingIffSlash | app/lib/validators/HtmlValidator.php:140-143 | a scanned token is closing exactly when the expression took its optional `/`; it starts with `<`, ends with `>` and has a non-empty name |
| Nesting.Classify | app/lib/validators/HtmlValidator.php:107-108 | a token becomes a tag of the same name, closing exactly when isClosingTag holds for its text |
| Nesting.Step | app/lib/validators/HtmlValidator.php:106-115 | an opening tag pushes its name; a closing tag succeeds exactly when the stack is non-empty with its name on top, and then pops that entry |
| Nesting.Run | app/lib/validators/HtmlValidator.php:104-115 | the loop over all tokens; when it does not throw, the stack holds no more entries than it started with plus the tokens processed |
| Nesting.RunOpenCount | app/lib/validators/HtmlValidator.php:104-115 | when the loop does not throw, the final stack has the initial entries plus one per opening tag minus one per closing tag |
| Nesting.NestingOutcome | app/lib/validators/HtmlValidator.php:104-119 | the verdict after the loop; an unclosed-tags failure lists a non-empty set of names, no more than there are tokens |
| Nesting.RunAppend | app/lib/validators/HtmlValidator.php:106-115 | running the loop over two parts is running it over the first and then over the second from the stack left behind |
| Nesting.RunWrapped | app/lib/validators/HtmlValidator.php:106-115 | an opening tag, a part that restores the stack, and the matching closing tag together restore the stack |
| Nesting.BalancedKeepsStack | app/lib/validators/HtmlValidator.php:106-115 | a balanced sequence leaves any stack as it found it and never throws |
| Nesting.BalancedWrap | app/lib/validators/HtmlValidator.php:106-115 | a balanced sequence followed by an element with balanced content is balanced |
| Nesting.CloseInnermost | app/lib/validators/HtmlValidator.php:106-115 | after a prefix that leaves some tags open, a whole element keeps the same tags open |
| Nesting.RunLeavesOpen | app/lib/validators/HtmlValidator.php:102-119 | if the loop ends with a stack, the sequence is a balanced prefix that leaves exactly the stack's names open, outermost first |
| Nesting.LeavesOpenRuns | app/lib/validators/HtmlValidator.php:102-119 | a balanced prefix that leaves names open runs without an exception and ends with exactly those names on the stack |
| Nesting.NestingOutcomeMeaning | app/lib/validators/HtmlValidator.php:102-120 | the nesting check passes exactly on balanced sequences; it reports unclosed tags exactly when the tags are a balanced prefix leaving them open, in opening order; otherwise it reports an invalid closing |
| Nesting.CheckLastClosedTagMatchCurrentTag | app/lib/validators/HtmlValidator.php:129-132 | pops exactly one entry and reports whether it differs from the closing name; with an empty stack the answer is "differs" |
| Nesting.ValidateTagNesting | app/lib/validators/HtmlValidator.php:102-120 | the loop's verdict: passes exactly when the tags are balanced; an unclosed-tags failure lists at most as many names as there are tokens, and they are exactly the names left open |
| Whitelist.Alternatives | app/lib/validators/HtmlValidator.php:68-69 | what a literal alternation matches: at least one alternative (the empty pattern offers the empty text), and at most one more than the pattern has characters |
| Whitelist.Join | app/lib/validators/HtmlValidator.php:68 | implode of no parts is empty and of one part is that part |
| Whitelist.PlainAlternatives | app/lib/patterns/HtmlPatterns.php:12-20 | pattern text without a bar or a backslash stands for itself alone |
| Whitelist.AlternativesOfBar | app/lib/validators/HtmlValidator.php:68 | joining two patterns with a bar offers the alternatives of the first and then those of the second |
| Whitelist.WellEscapedBar | app/lib/validators/HtmlValidator.php:68 | joining two patterns without a dangling backslash gives a pattern without one |
| Whitelist.JoinAlternatives | app/lib/validators/HtmlValidator.php:66-70 | the combined alternation offers exactly the alternatives of every pattern, in order |
| Whitelist.InAllAlternatives | app/lib/validators/HtmlValidator.php:66-70 | a literal is offered by the combined alternation exactly when some pattern offers it |
| Whitelist.OccursFrom | app/lib/validators/HtmlValidator.php:56 | the search finds a literal exactly when it occurs, ignoring ASCII case, at or after the start position |
| Whitelist.AnyOccurs | app/lib/validators/HtmlValidator.php:56 | the search succeeds exactly when one of the literals occurs in the text |
| Whitelist.MatchesSomewhere | app/lib/validators/HtmlValidator.php:56 | preg_match_all with `/(pattern)/i` finds a match exactly when some alternative of the pattern occurs somewhere, ignoring ASCII case |
| Whitelist.EmptyOccurs | app/lib/validators/HtmlValidator.php:69 | the empty alternative matches every text |
| HtmlPatterns.OpenOrCloseAlternatives | app/lib/patterns/HtmlPatterns.php:12-20 | a pattern written as `<name>`, a bar and `<\/name>` stands for exactly `<name>` and `</name>` and has no dangling backslash |
| HtmlPatterns.PatternMeaning | app/lib/patterns/HtmlPatterns.php:12-20 | a pattern of that form has exactly the opening and the closing form of its tag as alternatives |
| HtmlPatterns.TagAMeaning | app/lib/patterns/HtmlPatterns.php:12 | TAG_A stands for exactly `<a>` and `</a>` |
| HtmlPatterns.TagCodeMeaning | app/lib/patterns/HtmlPatterns.php:14 | TAG_CODE stands for exactly `<code>` and `</code>` |
| HtmlPatterns.TagIMeaning | app/lib/patterns/HtmlPatterns.php:16 | TAG_I stands for exactly `<i>` and `</i>` |
| HtmlPatterns.TagStrikeMeaning | app/lib/patterns/HtmlPatterns.php:18 | TAG_STRIKE stands for exactly `<strike>` and `</strike>` |
| HtmlPatterns.TagStrongMeaning | app/lib/patterns/HtmlPatterns.php:20 | TAG_STRONG stands for exactly `<strong>` and `</strong>` |
| HtmlPatterns.PatternIsTag | app/lib/patterns/HtmlPatterns.php:12-20 | every alternative of such a pattern begins with `<` |
| HtmlPatterns.DemoPatternsAreTags | app/lib/patterns/HtmlPatterns.php:12-20 | every one of the five patterns has no dangling backslash, and all its alternatives begin with `<` |
| HtmlValidation.HtmlValidator.constructor | app/lib/validators/HtmlValidator.php:26-29 | the validator keeps the patterns it is given, in order |
| HtmlValidation.HtmlValidator.CombineAllowedTagsPatterns | app/lib/validators/HtmlValidator.php:66-70 | the combined pattern offers every alternative of every pattern; with no patterns it offers only the empty text |
| HtmlValidation.HtmlValidator.CheckAllowedTags | app/lib/validators/HtmlValidator.php:54-59 | passes exactly when some alternative of the combined pattern occurs in the text; otherwise fails with the allowed-tag error |
| HtmlValidation.HtmlValidator.CheckTagClosureAndNesting | app/lib/validators/HtmlValidator.php:78-82 | passes exactly when the scanned tags are balanced; unclosed-tag failures name exactly the tags left open |
| HtmlValidation.HtmlValidator.Validate | app/lib/validators/HtmlValidator.php:37-47 | true exactly when the allowed-tag check passes and the scanned tags are balanced |
| HtmlValidation.AllowedCheckMeaning | app/lib/validators/HtmlValidator.php:54-59 | with at least one pattern, the allowed-tag check passes exactly when some alternative of some pattern occurs in the text, whatever other tags it holds |
| HtmlValidation.EmptyWhitelistPassesEverything | app/lib/validators/HtmlValidator.php:66-70 | with no patterns the allowed-tag check passes every text |
| HtmlValidation.PermutedPatternsSameVerdict | app/lib/validators/HtmlValidator.php:26-29 | two validators whose patterns are permutations of each other give the same allowed-tag verdict on every text |
| HtmlValidation.AngleNeedsAngle | app/lib/validators/HtmlValidator.php:56 | a literal starting with `<` occurs only in text holding a `<` |
| HtmlValidation.TagFreeTextRejected | app/lib/validators/HtmlValidator.php:54-59 | when every alternative begins with `<`, text without a `<` fails the allowed-tag check |
| Markup.PieceIsTag | app/lib/validators/HtmlValidator.php:22 | the text of a well-formed tag piece is one whole match of the expression, and its token classifies as the piece's tag |
| Markup.RenderScansAs | app/lib/validators/HtmlValidator.php:90-95 | rendered well-formed markup is cut into matches, one per tag piece, each classifying as that piece's tag |
| Markup.RenderThenScan | app/lib/validators/HtmlValidator.php:90-95 | scanning rendered well-formed markup gives back exactly its tags, in order, whatever the attributes |
| DemoCases.ElementScan | app/lib/validators/HtmlValidator.php:90-95 | an element `<n attrs>text</n>` scans into the opening and the closing tag of `n`, which are balanced |
| DemoCases.ElementAccepted | app/lib/validators/HtmlValidator.php:37-47 | an element whose closing form is an alternative of one of the five patterns passes both checks, whatever its attributes |
| DemoCases.BoldRender | app/index.php:23 | the markup of the first case renders as `<strong>Жирный шрифт</strong>` |
| DemoCases.BoldAccepted | app/index.php:23 | the first case passes both checks |
| DemoCases.LinkRender | app/index.php:24 | the markup of the second case renders as the script's link text |
| DemoCases.LinkAccepted | app/index.php:24 | the link passes both checks |
| DemoCases.LinkWithDataTestRender | app/index.php:25 | the markup of the third case renders as the script's link text with `data-test="1"` |
| DemoCases.LinkWithDataTestAccepted | app/index.php:25 | the link with `data-test` passes both checks, like the link without it |
| DemoCases.CrossedTags | app/index.php:26 | the crossed text scans into `strong`, `i` opened, then `strong`, `i` closed |
| DemoCases.CrossedNesting | app/index.php:26 | those tags fail with an invalid closing and are not balanced |
| DemoCases.CrossedRejected | app/index.php:26 | the crossed text passes the allowed-tag check and fails the nesting check with an invalid closing |
| DemoCases.UnclosedRender | app/index.php:27 | the unclosed text renders as `<strong>` and its text, and stands for one opening tag |
| DemoCases.UnclosedNesting | app/index.php:27 | one opening `strong` fails with `strong` listed as unclosed |
| DemoCases.UnclosedRejected | app/index.php:27 | the unclosed text passes the allowed-tag check and fails the nesting check, listing `strong` |
| DemoCases.DivThenLinkAccepted | app/lib/validators/HtmlValidator.php:54-59 | a `div` element that no pattern offers, followed by a link, passes both checks because `</a>` occurs |
| DemoCases.DemoVerdicts | app/index.php:11-27 | validating the five texts with the five tag patterns gives true, true, true, false, false |

## Left out

- General PCRE is not modelled. Caller patterns are read as alternations of literal text with `\` escapes, which is all that `HtmlPatterns` uses. Character classes, groups and quantifiers in caller patterns are not modelled.
- A lone backslash at the end of a pattern escapes whatever follows it in the combined alternation. In any pattern but the last it escapes the joining `|`: `['a\\', 'b']` becomes `/(a\|b)/i`, which compiles and matches the literal text `a|b`. The model does the same (`Whitelist.Alternatives` gives the single alternative `a|b`). In the last pattern it escapes the closing `)`, the expression does not compile, `preg_match_all` returns `false` and the check throws. The model reads that final backslash literally instead.
- Pattern order can therefore change the verdict in the code: `['a\\', 'b']` compiles while `['b', 'a\\']` does not. `HtmlValidation.PermutedPatternsSameVerdict` holds only for patterns without a dangling backslash, and its precondition says so.
- An unescaped `/` in a caller pattern ends the `/…/i` delimiters early ("Unknown modifier"), so `preg_match_all` returns `false` and the check throws. The model reads the `/` as a literal character, and may pass such text. The `HtmlPatterns` constants escape every `/`.
- HtmlValidation.HtmlValidator.CombineAllowedTagsPatterns: returns the alternation without its `/( … )/i` wrapping. The group and the `i` flag are modelled by `Whitelist.MatchesSomewhere`.
- The texts are sequences of characters, while PHP works on bytes. The expression and the patterns only compare against ASCII symbols, and case folding without the `u` flag folds ASCII letters only, so the verdicts agree.
- Exception classes and their messages are not modelled. A failure is the kind of error, plus the open names for unclosed tags. `ClosureTagException.php` is not part of this model.
- The file-existence check, `require_once`, `echo` and `exit` at the top of `HtmlValidator.php` are not modelled; they are loading and output, not logic.
- The `Validator` interface is not modelled; it is a signature with no behaviour.
- Attribute whitelisting is not modelled. `AllowedAttributeException`, `AttributePatterns` and `HtmlAttributePatterns` are never used by `HtmlValidator`.
- `app/index.php` is not modelled as a program: its constructor call and constant names do not run as written, and `var_dump` is output. `DemoCases.DemoVerdicts` uses the texts and the `HtmlPatterns` constants.
- Markup.RenderThenScan: covers only markup whose text pieces hold no `<`. Stray `<` in text is covered by the general scanner (`TagScanner.MatchesFrom`, `TagScanner.MatchesFromComplete`), not by this round trip.
