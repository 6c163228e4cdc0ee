# Input-enhancement stage, modelled in Dafny

A chat stage sits between a user and a bot. Before each user turn it does
four things:

- It reads bracket directives. `[[...]]` sets a long-term instruction that is
  kept from message to message. `[...]` is a "critical" instruction for this
  turn only. A body starting with `/` is a command and is ignored.
- It strips the directives from the message.
- It asks a text generator to enhance what is left. The generator's answer
  then goes through a cleanup loop: fourteen deletion-only rewrites and a
  `trim`, repeated until a pass changes nothing.
- It builds the stage directions. These are the ongoing and critical
  instructions, plus an "anti-echo" directive whenever the message was changed.

After each bot reply, the stage is meant to rewrite every markdown link whose
address does not answer: a link is meant to become its caption, and an image
nothing. As written, the code replaces the first occurrence of the link's text,
which can be an earlier copy that does answer. It also expands `$` patterns in
the caption. See "## Findings".

The model is split into modules:

- `TextUtil` (text.dfy): JavaScript's white-space set, `trim`, `join`, the
  filter that drops `/` commands, and the subsequence relation. Most "only
  deletes characters" properties are stated with the subsequence relation.
- `Directives` (directives.dfy): the two directive expressions, each as a
  left-to-right scan into plain characters and spans. Proved about the scan:
  it is unique, it renders back to the text, and dropping the spans only
  deletes characters.
- `Cleanup` (cleanup.dfy): each of the fourteen rewrites as an explicit matcher
  that follows the backtracking of the JavaScript engine. Also the pass, the
  loop as a `while` method, and what a cleaned text looks like.
- `CleanupExample` (cleanup_example.dfy): the fallback-cleaning test of the test
  runner, worked through the whole battery.
- `Links` (links.dfy): the link expression and its `matchAll`. Two rewrites:
  - the rewrite as written (`replace` of the first occurrence of each match's
    text, with replacement patterns);
  - the positional rewrite it evidently intends.
  Also `sanitizeMarkdownContent`.
- `LinkFindings` (link_findings.dfy): two replies on which those two rewrites
  differ.
- `Stage` (stage.dfy): the per-message state, the whole of `beforePrompt` as the
  function `Turn`, and the class `Stage`. The class has the mutable
  `longTermInstruction` field and the `BeforePrompt`/`AfterResponse` methods.

Some things happen outside the stage and become parameters:

- The generator's answer is an `Option<string>`. `None` stands for a failure, a
  timeout, or no character to enhance for.
- The link probes are a `seq<bool>`, one answer per match, in match order.

A directive in mid-sentence leaves both spaces around it: `Hello [[x]] there` sets the instruction `x` and strips to `Hello  there`, with two spaces (Stage.DirectiveSetsLongTerm). The stripped text is not empty, so the generator is still asked to enhance it. `Hello  there` is sent only when the enhancement fails or cleans to "" (Stage.DirectiveTurn, with the `None` answer).

## Model

| member | source | states |
|---|---|---|
| TextUtil.Trim | src/Stage.tsx:83 | `trim` returns a contiguous slice of its input with no white space at either end, and everything it cuts off before and after the slice is white space; it returns "" exactly when the input is all white space |
| TextUtil.TrimKeepsTrimmed | src/Stage.tsx:94 | trimming text that has no outer white space changes nothing |
| TextUtil.TrimIsSubseq | src/Stage.tsx:100 | trimming only deletes characters |
| TextUtil.Join | src/Stage.tsx:83 | joining no parts gives "" and joining one part gives that part |
| TextUtil.NonCommands | src/Stage.tsx:81 | the kept bodies are a subsequence of the input, none starts with `/`, every body that does not start with `/` is kept, and nothing is kept exactly when every body is a command |
| TextUtil.NonCommandsAppend | src/Stage.tsx:103 | filtering distributes over concatenation, so each body is kept or dropped on its own and the kept ones stay in order |
| Directives.BodyEnd | src/Stage.tsx:74 | the body run ends at the first character the body class refuses |
| Directives.SpanBodyIsRun | src/Stage.tsx:74 | a directive's body is the whole run of body characters after the opening fence |
| Directives.SpanText | src/Stage.tsx:74 | a directive occupies exactly the opening fence, its body and the closing fence |
| Directives.MatchAt | src/Stage.tsx:96 | one attempt at an index finds body `b` only when a directive with that body starts there, and finds nothing only when no directive starts there |
| Directives.NoSpanHere | src/Stage.tsx:74 | when the run of body characters after an opening fence is not followed by a closing fence that has no `(` after it, no directive starts at the index |
| Directives.Scan | src/Stage.tsx:76 | the computed pieces form a valid left-to-right scan of the text |
| Directives.ScanRoundTrip | src/Stage.tsx:76 | the pieces of a valid scan spell out the scanned text again |
| Directives.ScanUnique | src/Stage.tsx:97 | a text has only one valid scan |
| Directives.TextsIsSubseq | src/Stage.tsx:94 | deleting the directives only deletes characters |
| Directives.NoFenceNoSpan | src/Stage.tsx:74-76 | a text without an opening fence has no directive bodies and loses nothing when directives are removed |
| Directives.WithoutLongTerm | src/Stage.tsx:94 | the turn without its `[[...]]` directives, trimmed, is a subsequence of the turn |
| Directives.LongTermBodies | src/Stage.tsx:74-81 | defines the long-term bodies that count: a subsequence of the `[[...]]` bodies in scan order, none of them a `/` command (TextUtil.NonCommands states that every other body is kept) |
| Directives.CurrentPieces | src/Stage.tsx:96-100 | defines the scan of the second expression, which runs over the turn once the long-term directives are removed and trimmed; it is a valid scan of that text and spells it out again |
| Directives.StripDirectives | src/Stage.tsx:94-100 | the turn with both kinds of directive removed is a subsequence of the turn and is trimmed |
| Directives.StripEmpty | src/Stage.tsx:94-100 | an empty turn strips to "" |
| Directives.StripExample | src/Stage.tsx:74-94 | `Hello [[x]] there` has the single body `x` and strips to `Hello  there`, keeping both spaces |
| Cleanup.RunEnd | src/Stage.tsx:138 | a greedy digit, capital or word-character run ends at the first character outside the class |
| Cleanup.FindChar | src/Stage.tsx:135 | a lazy any-character run stops at the first occurrence of the closing character; no result means the character never occurs |
| Cleanup.RestOfLine | src/Stage.tsx:139 | the rest of a line under the multiline flag ends inside the text |
| Cleanup.ThroughNewline | src/Stage.tsx:145 | the rest of a line under the dot-all flag runs through the first line feed, which is the only line feed it consumes, or to the end of the text |
| Cleanup.LastBreak | src/Stage.tsx:142 | backtracking a white-space run to a line break lands inside that run |
| Cleanup.SpaceToEol | src/Stage.tsx:142 | white space up to a line end, when found, ends inside the text |
| Cleanup.FirstAlt | src/Stage.tsx:145 | the alternative found occurs at the position, case-insensitively, and no earlier alternative in the list does; its end is returned; no result means none occurs |
| Cleanup.FindAlt | src/Stage.tsx:146 | the lazy search for a role marker ends inside the text |
| Cleanup.StarTail | src/Stage.tsx:137 | the tail of a starred label, when found, consumes at least one character |
| Cleanup.CounterWord | src/Stage.tsx:140 | "remaining" or "responses", when found on the line, ends after the start |
| Cleanup.BracketTail | src/Stage.tsx:147 | the optional `]` and the white space to the line end stay inside the text |
| Cleanup.LazyBracketTail | src/Stage.tsx:147 | the lazy run before that tail always ends inside the text |
| Cleanup.PreambleWord | src/Stage.tsx:145 | a conversational opener word, when found, consumes at least one character |
| Cleanup.BlockAt | src/Stage.tsx:135-136 | a leading bracket or brace block, when it matches, consumes at least one character |
| Cleanup.StarLabelAt | src/Stage.tsx:137 | a starred-label line, when it matches, consumes at least one character |
| Cleanup.DigitsMarkAt | src/Stage.tsx:138 | a percentage line (and, at line 143, a numbered-list line), when it matches, consumes at least one character |
| Cleanup.PhraseLineAt | src/Stage.tsx:139 | a "Now responding as" line (and, at line 141, a "Drafting as" line), when it matches, consumes at least one character |
| Cleanup.CounterAt | src/Stage.tsx:140 | a response-counter line, when it matches, consumes at least one character |
| Cleanup.SlashAt | src/Stage.tsx:142 | a slash-command line, when it matches, consumes at least one character |
| Cleanup.LetteredAt | src/Stage.tsx:144 | a lettered-list line, when it matches, consumes at least one character |
| Cleanup.PreambleAt | src/Stage.tsx:145 | a conversational or refusal line, when it matches, consumes at least one character |
| Cleanup.RoleAt | src/Stage.tsx:146 | a role-description line, when it matches, consumes at least one character |
| Cleanup.BeginRealAt | src/Stage.tsx:147 | a "Begin real" line, when it matches, consumes at least one character |
| Cleanup.MetadataAt | src/Stage.tsx:148 | a prompt-metadata line, when it matches, consumes at least one character |
| Cleanup.MatchAt | src/Stage.tsx:135-148 | a rule's match at an index ends strictly after it and inside the text |
| Cleanup.BatteryRules | src/Stage.tsx:134-148 | the battery holds fourteen rewrites, every rewrite exactly once, in the order the source chains them |
| Cleanup.DeleteMatches | src/Stage.tsx:137-144 | a global rewrite to "" only deletes characters |
| Cleanup.Apply | src/Stage.tsx:134-148 | each rewrite only deletes; a start-anchored rewrite shortens the text exactly when it matches at the start |
| Cleanup.ApplyAll | src/Stage.tsx:134-148 | the chain of rewrites only deletes characters |
| Cleanup.Pass | src/Stage.tsx:134-149 | one pass only deletes, leaves no outer white space, and either changes nothing or makes the text strictly shorter |
| Cleanup.Cleaned | src/Stage.tsx:131-151 | the loop's result is the input with characters deleted |
| Cleanup.Clean | src/Stage.tsx:131-151 | the `while (cleaning)` loop returns the repeated-pass result `Cleaned(raw)`, and it terminates because every changing pass shortens the text |
| Cleanup.CleanedFixed | src/Stage.tsx:150 | the loop stops at a text that one more pass leaves unchanged |
| Cleanup.CleanedStep | src/Stage.tsx:132-151 | an unchanged pass ends the loop; a changing pass hands the rest of the work to the next turn |
| Cleanup.DeleteNone | src/Stage.tsx:137-144 | a global rewrite that matches nowhere deletes nothing |
| Cleanup.LineRuleNeedsLead | src/Stage.tsx:137-144 | a line rewrite cannot match where the first non-space character cannot begin any of them |
| Cleanup.QuietLines | src/Stage.tsx:137-144 | a line rewrite leaves a text alone when no line begins with what it needs |
| Cleanup.NowhereQuiet | src/Stage.tsx:137-144 | under the same condition the rewrite matches at no index |
| Cleanup.QuietAt | src/Stage.tsx:137-144 | the same at a single index |
| Cleanup.OffLineStart | src/Stage.tsx:137-144 | multiline-anchored rewrites match only at line starts |
| Cleanup.ApplyAllFixed | src/Stage.tsx:134-148 | a chain of rewrites that each leave the text alone leaves it alone |
| Cleanup.ApplyAllAppend | src/Stage.tsx:134-148 | running a chain in two parts is running it whole |
| Cleanup.ChainFixedEachFixed | src/Stage.tsx:134-148 | if the chain leaves a text unchanged, so does every single rewrite in it |
| Cleanup.PassFixedEachFixed | src/Stage.tsx:134-150 | a text a pass leaves unchanged is trimmed, and every rewrite leaves it unchanged |
| Cleanup.AnchoredFixed | src/Stage.tsx:145-148 | a start-anchored rewrite that changes nothing did not match at the start |
| Cleanup.NoPreamble | src/Stage.tsx:145 | a trimmed text the opener rewrite leaves alone starts with no opener word and no "System Alert" |
| Cleanup.NoMetadata | src/Stage.tsx:148 | a trimmed text the metadata rewrite leaves alone starts with no metadata word |
| Cleanup.NoOpenBlock | src/Stage.tsx:135-136 | a trimmed text the block rewrites leave alone that starts with `[` or `{` never closes it |
| Cleanup.FixedAnchors | src/Stage.tsx:134-148 | when every rewrite leaves a text alone, none of the start-anchored block, opener or metadata rewrites matches at its start |
| Cleanup.AnchorShape | src/Stage.tsx:135-148 | such a trimmed text has the cleaned shape: no opener, no metadata, no closed leading block |
| Cleanup.FixedPointShape | src/Stage.tsx:150 | a text one more pass leaves unchanged is trimmed and has the cleaned shape |
| Cleanup.CleanedShape | src/Stage.tsx:131-151 | the loop's result is a fixed point of the pass, trimmed, with the cleaned shape |
| Cleanup.CleanIdempotent | src/Stage.tsx:131-151 | cleaning a cleaned text changes nothing |
| CleanupExample.FirstPass | src/TestRunner.tsx:53-59 | the first pass over the test's raw text drops the opener line and the white space after it |
| CleanupExample.SecondPass | src/TestRunner.tsx:53-59 | the second pass drops the bracketed mode block |
| CleanupExample.FinalFixed | src/TestRunner.tsx:60 | a third pass leaves "Hello fallback" unchanged |
| CleanupExample.TestRunnerFallback | src/TestRunner.tsx:50-62 | the stage's full cleanup loop (the test runs three of its rewrites) turns the test's raw answer into "Hello fallback", the value the test expects |
| Links.LinkText | src/Stage.tsx:215 | the matched text's length is the caption, the address, the four punctuation characters and the `!` of an image |
| Links.LineEnd | src/Stage.tsx:206 | the line end is the first line terminator, or the end of the text |
| Links.LabelEnd | src/Stage.tsx:206 | the lazy caption ends at the first `](` on its line; no result means every `](` lies past the line end |
| Links.UrlEnd | src/Stage.tsx:206 | the lazy address ends at the first `)` on its line; no result means every `)` lies past the line end |
| Links.MatchLink | src/Stage.tsx:206 | one attempt at a position returns a link exactly as the expression matches there, and nothing only when no link matches there |
| Links.LinkAtUnique | src/Stage.tsx:206 | at most one link matches at a position |
| Links.Scan | src/Stage.tsx:206 | the computed pieces form a valid left-to-right `matchAll` scan |
| Links.LinksOf | src/Stage.tsx:206 | a scan has no more matches than pieces |
| Links.ScanRoundTrip | src/Stage.tsx:206 | the pieces of a valid scan spell out the reply again |
| Links.ScanUnique | src/Stage.tsx:206 | a reply has only one valid scan |
| Links.Replacement | src/Stage.tsx:215 | the text an unreachable link becomes is a strictly shorter subsequence of the link's text |
| Links.Filtered | src/Stage.tsx:212-217 | defines the positional rewrite on a scan: each unreachable link becomes its `Replacement` where it stands, every other piece is kept. Its properties are stated by FilteredDeletes and FilteredAppend |
| Links.FilterIntended | src/Stage.tsx:205-220 | defines the positional rewrite of a reply, the evident intent of `filterValidMarkdown`; the result is never longer than the reply. ReachableUnchanged, FilterIntendedShrinks and OneFailure state the rest |
| Links.FilteredDeletes | src/Stage.tsx:212-217 | the positional rewrite only deletes characters, and changes the reply exactly when some address fails |
| Links.ReachableUnchanged | src/Stage.tsx:212-217 | when every address answers, the reply is left as it is |
| Links.FilterIntendedShrinks | src/Stage.tsx:212-217 | the rewritten reply is a subsequence of the reply, and strictly shorter once any address fails |
| Links.IndexOf | src/Stage.tsx:215 | `indexOf` finds the first occurrence at or after the start index; no result means there is none |
| Links.Substitute | src/Stage.tsx:215 | defines the expansion of `$$`, `$&`, `` $` `` and `$'` that `replace` applies to its replacement string; a replacement without `$` is inserted unchanged. LinkFindings.PatternAsWritten shows `$&` expanding |
| Links.ReplaceFirst | src/Stage.tsx:215 | `replace` with a string pattern that does not occur returns the text unchanged |
| Links.ReplaceFirstAt | src/Stage.tsx:215 | when the first occurrence is known, `replace` substitutes exactly there |
| Links.FilterValidMarkdown | src/Stage.tsx:205-220 | the `forEach` loop computes the as-written rewrite, each unreachable match replaced at the first occurrence of its text in the text so far |
| Links.RewriteFrom | src/Stage.tsx:212-217 | defines the `forEach` as written: each unreachable match's text is replaced at its first occurrence in the text rewritten so far; when every address answers, the text is left as it is. RewriteDeletes, RewriteShorter and RewriteAppend state the rest |
| Links.FilterAsWritten | src/Stage.tsx:205-220 | defines `filterValidMarkdown` as written on the reply's own matches; when every address answers, it returns the reply. FilterAsWrittenShrinks and OneFailure state the rest, and both Findings rest on it |
| Links.ReplaceFirstDeletes | src/Stage.tsx:215 | replacing a link's text by its caption, when the caption has no `$`, only deletes characters, and deletes some whenever the text occurs |
| Links.RewriteDeletes | src/Stage.tsx:212-217 | with captions free of `$`, the as-written loop only deletes characters |
| Links.RewriteShorter | src/Stage.tsx:212-217 | the first unreachable link whose text occurs in the reply makes the as-written result strictly shorter |
| Links.MatchOccurs | src/Stage.tsx:206 | the text of every match occurs in the reply |
| Links.FilterAsWrittenShrinks | src/Stage.tsx:205-220 | with captions free of `$`, `filterValidMarkdown` as written returns a subsequence of the reply, strictly shorter as soon as one address fails |
| Links.OneFailure | src/Stage.tsx:205-220 | when exactly one link is unreachable, its caption has no `$`, and its text does not occur before it: the as-written result equals the positional rewrite, which keeps every other link byte for byte and replaces that link where it stands by its `Replacement` (the caption, or nothing for an image) |
| Links.Sanitize | src/Stage.tsx:257-259 | no `]`, `(`, `)` or line feed remains, the result is a subsequence of the input, and every other character keeps its count |
| Links.SanitizeClean | src/Stage.tsx:257-259 | text with nothing to strip is returned unchanged |
| Links.SanitizeIdempotent | src/Stage.tsx:257-259 | sanitising twice is sanitising once |
| LinkFindings.TwiceMatches | src/Stage.tsx:206 | `[a](u) [a](u)` has two equal matches |
| LinkFindings.TwiceAsWritten | src/Stage.tsx:212-217 | with the first link reachable and the second not, the code as written rewrites the first: the result is `a [a](u)` |
| LinkFindings.TwiceIntended | src/Stage.tsx:212-217 | the positional rewrite turns only the second link into its caption: `[a](u) a` |
| LinkFindings.PatternScan | src/Stage.tsx:206 | `[$&](u)` is one link with caption `$&` |
| LinkFindings.PatternAsWritten | src/Stage.tsx:215 | as written, the unreachable link `[$&](u)` survives unchanged, because `$&` expands to the whole match |
| LinkFindings.PatternIntended | src/Stage.tsx:215 | taken literally, the caption replaces the link: `$&` |
| Stage.Recalled | src/Stage.tsx:57-59 | a stored instruction reads back as itself; a non-empty instruction is read only from a stored state that holds exactly it, so a missing state or field reads as "" |
| Stage.WriteAfterRead | src/Stage.tsx:57-65 | writing back what was read keeps a stored state as it is, and turns a missing state or field into the instruction "" |
| Stage.Saved | src/Stage.tsx:61-65 | reading back a written state gives the instruction that was written |
| Stage.UpdatedLongTerm | src/Stage.tsx:76-91 | defines the instruction after a turn: with no non-command `[[...]]` body the previous one is kept; otherwise it is the bodies joined by line feeds and trimmed, a trimmed subsequence of that join. LongTermKept, CommandsKeepLongTerm, LongTermReplaces and SingleBody state the rest |
| Stage.LongTermKept | src/Stage.tsx:76-94 | a turn without `[[` keeps the instruction, and removing long-term directives only trims it |
| Stage.CommandsKeepLongTerm | src/Stage.tsx:81-91 | a turn whose `[[...]]` bodies are all commands keeps the instruction |
| Stage.LongTermReplaces | src/Stage.tsx:83-91 | a turn with a non-command body sets the instruction independently of the previous one, and trimmed |
| Stage.SingleBody | src/Stage.tsx:83-91 | a single trimmed body becomes the instruction |
| Stage.EnhancementCleaned | src/Stage.tsx:131-151 | a generator answer reaches the message only through the cleanup loop: deleted from, a fixed point of one pass, with the cleaned shape |
| Stage.ModifiedMessage | src/Stage.tsx:93-166 | defines the message sent on: it is the stripped turn, or the non-empty cleaned answer to a non-empty stripped turn, or a single space when stripping emptied a non-empty turn. ModifiedEmptyIff, FallbackMessage, DirectivesOnly and EnhancedMessage state the rest |
| Stage.ModifiedEmptyIff | src/Stage.tsx:153-166 | the message sent on is empty exactly when the turn was empty |
| Stage.FallbackMessage | src/Stage.tsx:157-166 | without a usable enhancement, the message is the stripped turn, or a single space |
| Stage.DirectivesOnly | src/Stage.tsx:163-166 | a non-empty turn of directives only becomes a single space, and is never enhanced |
| Stage.EnhancedMessage | src/Stage.tsx:153-156 | a non-empty cleaned enhancement of a non-empty stripped turn replaces the turn |
| Stage.CleanEnhancement | src/Stage.tsx:110-161 | the `try` block yields the cleaned generator answer, or nothing when the generator failed |
| Stage.EnhanceMessage | src/Stage.tsx:93-166 | the steps from stripping to the single-space fix compute `ModifiedMessage` of the turn and the cleaned answer |
| Stage.PlainTurn | src/Stage.tsx:67-188 | a trimmed turn without brackets and without enhancement keeps the instruction, has no critical bodies and goes through unchanged |
| Stage.StageDirections | src/Stage.tsx:105-107 | the directions are empty exactly when there is no instruction of either kind. With an ongoing instruction they start with its line. With critical bodies they end with the critical label, the trimmed bodies joined by line feeds, and a line feed. Without critical bodies they are the ongoing line alone. Their length is exactly that of the lines present |
| Stage.BothDirections | src/Stage.tsx:105-107 | with ongoing instruction `x` and critical body `y`, the directions are the ongoing line followed by the critical line |
| Stage.FinalDirections | src/Stage.tsx:168-175 | defines the directions after the anti-echo step: unchanged when the message is unchanged or empty; otherwise non-empty, the directive alone when there were no directions, and else the directions followed by the directive and a line feed |
| Stage.Turn | src/Stage.tsx:67-188 | defines the whole of `beforePrompt`: the saved state reads back as the updated instruction, the message is `ModifiedMessage`, and directions, when sent, are never empty (empty ones become `null`). SilentTurnIff, AntiEchoIffChanged, InstructionCarried, DirectiveTurn and ClearingTurn state the rest |
| Stage.SilentTurnIff | src/Stage.tsx:168-182 | no stage directions are sent exactly when there is no instruction of either kind and the message went through unchanged |
| Stage.AntiEchoIffChanged | src/Stage.tsx:168-176 | a changed message appends the anti-echo directive to the directions, or sends it alone; an unchanged one sends the directions alone |
| Stage.InstructionCarried | src/Stage.tsx:181-184 | the saved state reads back as the instruction in force after the turn, and a following turn without `[[` keeps it |
| Stage.DirectiveSetsLongTerm | src/Stage.tsx:74-94 | `Hello [[x]] there` sets the instruction to `x` and leaves `Hello  there` |
| Stage.DirectivePasses | src/Stage.tsx:96-103 | the current-turn pass of that turn finds no bodies and strips to `Hello  there` |
| Stage.DirectiveTurn | src/Stage.tsx:67-188 | without enhancement that turn sends the ongoing line and the anti-echo directive, saves `x` and sends `Hello  there` |
| Stage.ClearingPieces | src/Stage.tsx:74-76 | `[[]]` scans as one empty long-term directive |
| Stage.ClearingTurn | src/Stage.tsx:83-166 | `[[]]` clears the instruction, and the message becomes a single space |
| Stage.Stage.constructor | src/Stage.tsx:27-39 | a new stage holds the instruction read from the initial message state |
| Stage.Stage.ReadMessageState | src/Stage.tsx:57-59 | the field becomes the stored instruction, or "" |
| Stage.Stage.WriteMessageState | src/Stage.tsx:61-65 | the written state reads back as the current instruction |
| Stage.Stage.BeforePrompt | src/Stage.tsx:67-189 | the field becomes the updated instruction, and the response is `Turn` of the previous instruction, the turn and the cleaned answer |
| Stage.Stage.AfterResponse | src/Stage.tsx:191-203 | no stage directions; the state reads back as the unchanged instruction. The message is `filterValidMarkdown` as written, and equals the reply when every address answers. With captions free of `$` it is a subsequence of the reply, strictly shorter once an address fails |

## Left out

- The prompt built by `enhance` and the generator call (src/Stage.tsx:232-255) are left out. They produce text the stage cannot see, so the generator's answer is a parameter. An answer without a `result` field is the empty answer `Some("")`.
- The 20-second timeout race (src/Stage.tsx:112-127) is left out. A timeout, like a thrown error, leads to the `None` answer. Without a prompt id the code enhances for the first character, and the answer that call produces is the parameter. Only when there is no character at all does the code throw, which again leads to `None`.
- `isValidUrl` (src/Stage.tsx:222-230) is a network `HEAD` request. Its answers are the parameter `ok`. `Promise.all` concurrency is not modelled, because the answers do not depend on order.
- `load`, `setState` and `render` (src/Stage.tsx:41-55, 261-263) are left out. They hold no logic beyond `readMessageState`/`writeMessageState`, except for an environment update and an empty view.
- Console logging is left out.
- The `characters` and `users` maps are left out. They only feed the prompt.
- The model uses Unicode scalar values, where JavaScript counts UTF-16 code units. A character outside the Basic Multilingual Plane counts once here and twice there. No branch in the core depends on that count.
- A stored `longTermInstruction` that is present but is not a string is not modelled. The state type admits only strings or nothing.
- The test runner's `<output>` extraction test (src/TestRunner.tsx:44-47) is left out. It exercises code that is not in the stage.
- The test runner's fallback loop applies only the block, brace and opener rewrites (src/TestRunner.tsx:55-58). The model runs the stage's full battery on the test's input instead (CleanupExample.TestRunnerFallback). The expected result is the same.
- Stage.Stage.AfterResponse: the message is promised to be a subsequence of the reply only when no caption contains `$`. A caption with `$` is expanded by `replace`, so the as-written result can then be longer than the reply (see Findings).
- Links.OneFailure: the as-written and positional rewrites are proved equal only when a single link fails. With several failures, an earlier replacement can shift or create occurrences of a later link's text, and the model does not characterise when the two rewrites still agree.
- TextUtil.Join: its contract states only the zero-part and one-part cases. Longer joins are used only through Trim and the example lemmas.
- Links.LinksOf: its contract bounds only the number of matches. What the matches are is stated by Links.Scan, Links.ScanUnique and Links.MatchLink.
- Cleanup.MatchAt: its contract, like those of the per-rule matchers (BlockAt through MetadataAt, StarTail, CounterWord, RestOfLine, LastBreak, SpaceToEol, FindAlt, LazyBracketTail, BracketTail, PreambleWord), bounds only where a match ends. What the rules delete and leave is stated by the lemmas from DeleteNone to CleanedShape and by the worked test in CleanupExample.

## Findings

`filterValidMarkdown` rewrites an unreachable link with `cleanedText.replace(match[0], ...)`. That call replaces the first occurrence of the link's text in the text rewritten so far, which is not necessarily the link that failed. The call also interprets `$` patterns in the caption. The evident intent is to replace each unreachable link where it stands, by its caption taken literally. `Links.Filtered`/`Links.FilterIntended` model that intent, and `Links.RewriteFrom`/`Links.FilterAsWritten` the code as written. `Links.FilterValidMarkdown` and `Stage.Stage.AfterResponse` keep the behaviour as written. `Links.OneFailure` proves that the two agree when a single link fails, its caption has no `$`, and its text does not occur earlier in the reply.

| source | as written | input that shows it | evidently intended | confidence | as-written member | corrected member |
|---|---|---|---|---|---|---|
| src/Stage.tsx:212-217 | the text of an unreachable link is replaced at its first occurrence, which may be an earlier, reachable copy of the same link | reply `[a](u) [a](u)`, first address answers, second does not: result `a [a](u)` | `[a](u) a`: the unreachable second link becomes its caption | not executed | LinkFindings.TwiceAsWritten | LinkFindings.TwiceIntended |
| src/Stage.tsx:215 | the caption is used as a replacement pattern, so `$&` expands to the whole match | reply `[$&](u)`, address does not answer: result `[$&](u)`, unchanged | `$&`: the caption, taken literally | not executed | LinkFindings.PatternAsWritten | LinkFindings.PatternIntended |
