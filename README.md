# chatgpt-copy-to-md: a Dafny model of the content script's core

The browser extension adds two copy buttons to the ChatGPT page. A "Copy to
MD" button appears in the "Ask ChatGPT" bubble over a text selection. It
copies the selection as a Markdown blockquote. A "Copy MD" button appears
under each assistant message. It copies the message text as a fenced code
block. All the Markdown the extension produces comes from three small string
functions in `content.js`: `normalizeText`, `toBlockquote` and `toCodeBlock`.
Around them sit two pieces of state. One is the retry loop that waits for
the bubble to appear before inserting the button. The other is the
remembered last selection.

The project has three modules:

- `JsString` (`js_string.dfy`) models the JavaScript string built-ins the
  code relies on. `trim` uses the exact ECMAScript whitespace set
  (WhiteSpace and LineTerminator). `length` counts UTF-16 code units.
  `split` and `join` take a one-character separator. These built-ins have no
  source lines of their own, so their rows cite the lines that use them.
- `Markdown` (`markdown.dfy`) holds `normalizeText`, `toBlockquote` and
  `toCodeBlock` as pure functions, with lemmas about bounds, idempotence,
  line structure and the prefix-stripping round trip.
- `ContentScript` (`content_script.dfy`) holds the module-level state as a
  class: `bubbleButton`, `bubbleInsertTimer`, `bubbleInsertAttempts` and
  `lastSelectionText`. Its methods are `removeFloatingButton`,
  `tryInsertBubbleButton`, `isValidSelection`, `handleSelection` and the
  bubble button's click handler. The module also holds the pure functions
  that decide what each copy button puts on the clipboard.

The page is replaced by inputs. Whether `findAskBubbleContainer` finds the
bubble is a boolean parameter. `window.getSelection()` is a `Selection`
value. The browser's timer queue is modelled as the set of timer ids still
scheduled: `setTimeout` adds a fresh id, and `clearTimeout` or running the
callback removes it. Modelling the queue this way shows one behaviour of
the source. `tryInsertBubbleButton` overwrites `bubbleInsertTimer` without
cancelling the retry it named. So when the insertion fails twice in a row
(for example, `selectionchange` and `mouseup` both call `handleSelection`),
`removeFloatingButton` cancels only the second retry. The first one stays
scheduled (`StaleRetryAfterRemoval`).

`normalizeText` only trims the ends and collapses runs of three or more line
feeds. It keeps trailing spaces on inner lines (`NormalizeFixedPoint`), and
apart from line feeds its output is exactly the trimmed text
(`NormalizeText`, `CollapseKeepsText`). The code block's language tag is
always `text`, and its body is not escaped. A line that contains only spaces
counts as a non-blank line in a blockquote.

## Model

| member | source | states |
|---|---|---|
| `JsString.LeadingWhitespace` | content.js:8 | the count covers exactly the whitespace characters the string starts with: all of them are whitespace, and the next character, if any, is not |
| `JsString.TrailingWhitespace` | content.js:8 | the count covers exactly the whitespace characters the string ends with: all of them are whitespace, and the character before them, if any, is not |
| `JsString.Trim` | content.js:113 | the trimmed text has no whitespace at either end, and it is empty exactly when the input is all whitespace |
| `JsString.TrimRemovesEnds` | content.js:8 | the trimmed text is the contiguous piece of the input that starts right after the leading whitespace, and everything before and after it is whitespace |
| `JsString.TrimTrimmed` | content.js:8 | trimming a string with no whitespace at either end returns it unchanged |
| `JsString.Utf16Length` | content.js:114-117 | the `length` of a string lies between its character count and twice that, and is 0 only for the empty string |
| `JsString.IndexOf` | content.js:18 | the position found holds the separator and no earlier position does |
| `JsString.Split` | content.js:18 | `split('\n')` always gives at least one piece, even for the empty string |
| `JsString.SplitPiecesFree` | content.js:18 | no piece of a split contains the separator |
| `JsString.SplitAround` | content.js:18 | splitting a string at a separator splits the text on each side independently |
| `JsString.SplitAtFirst` | content.js:18 | the first piece is the text before the first separator, and the remaining pieces are the split of the text after it |
| `JsString.SplitFirstEmpty` | content.js:18 | the first piece is empty exactly when the string is empty or starts with the separator |
| `JsString.SplitLastEmpty` | content.js:18 | the last piece is empty exactly when the string is empty or ends with the separator |
| `JsString.Join` | content.js:20 | the first part starts the joined string, and with two or more parts the separator follows it |
| `JsString.JoinSplit` | content.js:18-20 | joining the pieces of a split with the same separator gives back the original string |
| `JsString.SplitJoin` | content.js:18-20 | splitting the join of one or more separator-free pieces gives back exactly those pieces |
| `Markdown.NewlineRun` | content.js:9 | the run length counts exactly the line feeds the text starts with |
| `Markdown.CollapseNewlines` | content.js:9 | the regex replacement never lengthens the text and keeps its first character |
| `Markdown.CollapseKeepsText` | content.js:9 | the replacement deletes line feeds only: with every line feed removed, output and input are the same text |
| `Markdown.CollapseAppend` | content.js:9 | text that does not end inside a run of line feeds is replaced independently of the text after it |
| `Markdown.CollapseRun` | content.js:9 | a maximal run of k line feeds becomes exactly two when k is 3 or more and is kept as it is when k is 1 or 2, while the text on each side is replaced on its own |
| `Markdown.CollapseNoTriple` | content.js:9 | after the replacement no three consecutive line feeds remain |
| `Markdown.CollapseLast` | content.js:9 | the replacement keeps the last character, so trailing whitespace cannot reappear after the trim |
| `Markdown.CollapseNoTripleUnchanged` | content.js:9 | text without three consecutive line feeds passes through the replacement unchanged |
| `Markdown.NormalizeText` | content.js:6-10 | the output has no three consecutive line feeds and no whitespace at either end; it is empty exactly when the input is blank; it is never longer than the input; with line feeds removed it is exactly the trimmed input |
| `Markdown.NormalizeParagraphs` | content.js:6-10 | two trimmed paragraphs separated by three or more line feeds come out normalized on their own and separated by exactly one blank line |
| `Markdown.NormalizeFixedPoint` | content.js:6-10 | normalizeText returns its input unchanged exactly when the input is trimmed and free of triple line feeds, so interior trailing spaces survive |
| `Markdown.NormalizeIdempotent` | content.js:6-10 | normalizing twice gives the same text as normalizing once |
| `Markdown.QuoteLines` | content.js:19 | every line, empty lines included, gets the "> " prefix: there are as many quoted lines as lines, each starts with "> ", and removing the prefix gives the lines back |
| `Markdown.ToBlockquote` | content.js:15-21 | the lines of the quote are exactly the lines of normalizeText of the input, each with "> " in front |
| `Markdown.BlockquoteRoundTrip` | content.js:15-21 | stripping "> " from every line and rejoining with line feeds gives exactly normalizeText of the input |
| `Markdown.BlockquoteOfBlank` | content.js:15-21 | the quote is exactly "> " if and only if the input is all whitespace |
| `Markdown.SplitNoAdjacentEmpty` | content.js:9 | a string free of triple line feeds that neither starts with two line feeds nor ends with one splits into lines with no two adjacent empty lines |
| `Markdown.BlockquoteBlankLines` | content.js:16-20 | for non-blank input the first and last quoted lines carry text, and no two adjacent quoted lines are bare "> " markers |
| `Markdown.ToCodeBlock` | content.js:26-29 | the code block's lines are the fence with language tag `text`, then the lines of normalizeText of the input verbatim (no escaping), then the closing fence |
| `Markdown.CodeBlockLines` | content.js:26-29 | dropping the two fence lines and joining the rest gives back normalizeText of the input |
| `ContentScript.ValidSelection` | content.js:107-118 | a valid selection is one isValidSelection also remembers, and its trimmed text has at least 2 characters; any range whose trimmed text has 3 or more characters is valid |
| `ContentScript.LiveText` | content.js:151 | the click handler reads the selection's text when there is a range and the empty string otherwise; that text is non-blank exactly when isValidSelection would remember the selection |
| `ContentScript.FailedAttempt` | content.js:198-204 | after a failed lookup either a retry is scheduled and the counter is the old one plus 1, in 1..12, or no retry is scheduled and the counter is 0; a retry is scheduled exactly when the old counter was below 12 |
| `ContentScript.FailureChainLength` | content.js:198-204 | a chain of failed lookups starting at counter a makes exactly 13 - a calls, so 13 calls from a zero counter, and then stops |
| `ContentScript.FailureChainThroughRetries` | content.js:186-205 | driving the controller through one failed tryInsertBubbleButton and then every retry it schedules makes exactly 13 calls before no retry is left |
| `ContentScript.BubbleClickMarkdown` | content.js:150-156 | the click copies nothing exactly when the live text is non-empty but blank, or is empty and the remembered text is blank; otherwise the copy is toBlockquote of the live text, or of the remembered text when the live text is empty, it is not the bare marker, and unquoting it gives that text normalized |
| `ContentScript.MessageCopyMarkdown` | content.js:357-362 | the message button copies nothing exactly when the message text is blank; otherwise the copy is a `text` fence around the non-empty normalized message lines |
| `ContentScript.BubbleController.constructor` | content.js:98-102 | the script starts with no button, no timer, a zero counter, an empty remembered selection and no scheduled retry |
| `ContentScript.BubbleController.RemoveFloatingButton` | content.js:174-184 | the button reference is cleared, the counter is 0, the timer handle is null, and the retry it named is no longer scheduled; other scheduled retries and the remembered selection are untouched |
| `ContentScript.BubbleController.TryInsertBubbleButton` | content.js:186-205 | on success the button exists, the counter is 0 and the handle is null; on failure the counter follows FailedAttempt, and either a fresh retry is scheduled and named by the handle (counter 1..12) or the handle is null (counter 0); earlier scheduled retries are not cancelled |
| `ContentScript.BubbleController.RunScheduledRetry` | content.js:200 | a scheduled retry leaves the queue and tryInsertBubbleButton runs with the same outcome as a direct call |
| `ContentScript.BubbleController.IsValidSelection` | content.js:107-118 | the result is true exactly when there is a range and the trimmed text is at least 3 UTF-16 units long; the remembered text becomes the trimmed text exactly when that is non-empty, and is otherwise unchanged |
| `ContentScript.BubbleController.HandleSelection` | content.js:210-221 | when the extension is disabled or the selection is invalid, the button is removed, the counter reset and the retry the handle named cancelled; otherwise an insertion is tried with the outcomes of TryInsertBubbleButton, including the fresh retry scheduled on failure; only an enabled non-blank selection with a range updates the remembered text |
| `ContentScript.BubbleController.ClickBubbleButton` | content.js:148-165 | the click copies BubbleClickMarkdown of the live and remembered selection; with nothing to copy the state is unchanged, otherwise the button is removed, the counter reset and the retry the handle named cancelled |
| `ContentScript.StaleRetryAfterRemoval` | content.js:179-221 | two handleSelection calls on a valid selection whose container lookups fail, then one on an invalid selection, leave exactly one retry still scheduled |

## Left out

- `copyToClipboard` (content.js:36-71): it is asynchronous, uses the browser clipboard API with an `execCommand('copy')` fallback, and reports foreign error objects. The model stops at the string handed to it.
- `showToast`, `createBubbleButton`, `createCopyMDButton` (content.js:76-94, 135-169, 280-302): these only build the DOM. The model keeps just "a button exists" (`hasButton`), which `createBubbleButton` sets or reuses.
- `findAskBubbleContainer`, `findButtonContainer`, `extractMessageText`, `processAssistantMessages`, `addCopyMDButtonToMessage`: CSS-selector lookups over the live page. Their outcomes are inputs: `containerFound`, the selection, and the message text.
- The event listeners, the MutationObserver and its debounce, and the Escape key handler (content.js:224-233, 378-405, 486-516): host wiring. The Escape handler calls `removeFloatingButton`, which is modelled, and then clears the page selection.
- Clearing the selection with `removeAllRanges` (content.js:163 and 229): the selection is an input to each call rather than state of the model, so the model does not record that it was cleared.
- ClickBubbleButton: the source awaits the clipboard write before removing the button, so other events can run in between. The model treats the click as one atomic step.
- `initSettings`, `setExtensionEnabled`, `removeAllInjectedButtons`, popup.js, options.js, background.js and build.js: settings storage and build plumbing. The enabled flag is an input to HandleSelection.
- The retry delay of 120 ms: time is not modelled. Only the order in which scheduled retries run matters, and the caller of RunScheduledRetry chooses it.
