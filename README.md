# Blog generator front end: the generation session and the article text helpers

This project models the two parts of the blog generator's web front end that hold real logic.

- **The generation page** (`app/page.tsx`). The user submits a topic. The page opens a server-sent event feed for it and collects each plain message as a progress step. A message that starts with `DONE::` carries the finished post as JSON. On that message the page records the post's id, closes the feed and stops streaming. A feed error shows a fixed message, closes the feed and stops streaming. Each step card is drawn as running (the last one) or complete (all earlier ones).
- **The articles page** (`app/generated_articles/page.tsx`). It lists the stored posts newest first. Each post shows a title, which is the SEO title or else the topic. It also shows a plain-text preview of its Markdown after the `[Author Name]` and `[Date]` placeholders are filled in. A Read/Hide button expands one post at a time.

Modules:

- `Wrappers` holds `Option`.
- `JsString` holds the JavaScript string operations the pages use:
  - the `\s` class and `trim`;
  - `startsWith`, `indexOf` and `replace` with a string pattern;
  - a global case-insensitive `replace` with a literal pattern;
  - a `replace` of runs of one character class.
- `Blog` holds the `BlogPost` and `SeoMeta` records.
- `Generation` models `app/page.tsx`. `GenerationPage` is a class whose methods update its fields the way the React state setters do. It also tracks the feed: whether it is open, how many feeds were opened, and how many `close` calls were made. Its invariant `Valid()` says two things. First, the page is streaming exactly while its feed is open. Second, every feed except the open one was closed exactly once.
- `Articles` models `app/generated_articles/page.tsx`:
  - `InjectMetadata`, `Cleaned` and `CreatePreview` are pure functions.
  - The listing order and the title fallback are pure functions.
  - `ArticlesPage` is a class for the listing state and the expand toggle.

Outside effects become parameters:

- The event feed becomes calls to `OnMessage` and `OnError`.
- `JSON.parse` becomes the decoder passed to the `GenerationPage` constructor. `None` means it throws.
- The clock becomes the `today` argument.
- The listing request becomes the argument of `FinishLoading`. `None` means the request or the parsing threw.

Behaviour of the code that a reader might not expect:

- A terminal message whose JSON does not parse makes `JSON.parse` throw inside the callback (`app/page.tsx:63`, no `try`). Nothing after it runs. The feed stays open, the page keeps streaming and no error is shown.
- The page has no guard against callbacks from an earlier feed. At most one feed is open per mounted page, because the submit button is disabled while streaming (`app/page.tsx:122`).
- The metadata placeholders are replaced only for display, by `injectMetadata`. The stored Markdown is not changed.
- The preview drops `# _ * \` > -`. It does not drop brackets.
- Ending in `…` does not imply truncation. A short cleaned text that itself ends in `…` is shown unchanged. So `CreatePreview` states truncation as "longer than `length`".

## Model

| member | source | states |
|---|---|---|
| `JsString.Trim` | app/page.tsx:45 | `trim` leaves no white space at either end; it removes only white space from the two ends; it gives the empty text exactly when the input is blank, which is the `!topic.trim()` test |
| `JsString.TrimBounds` | app/generated_articles/page.tsx:41 | the kept part starts after a run of white space and ends before one, and its first and last characters are not white space |
| `JsString.IndexFrom` | app/page.tsx:62 | the first position at or after `i` where the pattern occurs, with no earlier occurrence; `None` when it does not occur at all |
| `JsString.ReplaceFirst` | app/page.tsx:62 | `replace` with a string pattern: no occurrence leaves the text unchanged; otherwise the length changes by the replacement's length minus the pattern's; a text that starts with the pattern has exactly that prefix replaced |
| `JsString.TrimOfTrimmed` | app/generated_articles/page.tsx:41 | `trim` leaves alone a text that neither starts nor ends with white space |
| `JsString.RunEnd` | app/generated_articles/page.tsx:39-40 | a `+` run ends at the first character outside the class, or at the end of the text |
| `JsString.ReplaceRuns` | app/generated_articles/page.tsx:39-40 | after `replace(/X+/g, " ")`, no two neighbouring characters are in the class; each class character left is a space; only characters of the input or spaces appear; the result is no longer than the input and empty only for empty input; what each run becomes is stated by `ReplaceRunsKeepsWord`, `ReplaceRunsOfRun` and `ReplaceRunsSplit` |
| `JsString.ReplaceRunsKeepsWord` | app/generated_articles/page.tsx:39-40 | characters outside the class are copied unchanged, in order, ahead of the rest of the rewrite |
| `JsString.ReplaceRunsOfRun` | app/generated_articles/page.tsx:39-40 | a whole maximal run, of any length, becomes exactly one space |
| `JsString.ReplaceRunsSplit` | app/generated_articles/page.tsx:39-40 | where the second part starts outside the class, the two parts of a text are rewritten independently |
| `JsString.ReplaceAllCIWithoutMatch` | app/generated_articles/page.tsx:29-30 | a case-insensitive global replacement changes nothing in text where the pattern does not occur |
| `JsString.ReplaceAllCI` | app/generated_articles/page.tsx:29-30 | a global case-insensitive replacement only brings in characters of the input or of the replacement; `ReplaceAllCIAtMatch` states that each match becomes the replacement, and `ReplaceAllCIKeepsText` that the text in which no match begins is kept, brackets included; together they fix the result for every input |
| `JsString.ReplaceAllCIAtMatch` | app/generated_articles/page.tsx:29-30 | a match at the front, in any letter case, is replaced by the replacement text and the scan resumes right after it |
| `JsString.ReplaceAllCIKeepsText` | app/generated_articles/page.tsx:29-30 | text in which no match begins is copied unchanged, in order, ahead of the rest, even when it holds the pattern's first character |
| `JsString.NoMatchBefore` | app/generated_articles/page.tsx:29-30 | no match begins inside a match-free text when the text after it starts with a character that cannot continue the pattern |
| `Generation.TerminalPayload` | app/page.tsx:61-62 | a message is terminal exactly when it starts with `DONE::`; its JSON text is the message without its first six characters, because the first occurrence that `replace` removes is the prefix itself |
| `Generation.StatusAt` | app/page.tsx:159-160 | card i of n is running exactly when it is the last, complete exactly when it comes before the last, and takes the third look only for an index outside the list |
| `Generation.Statuses` | app/page.tsx:158-160 | among n cards, card i is running exactly when i = n-1 and complete exactly when i < n-1; the third (hollow circle) look never occurs |
| `Generation.OneRunning` | app/page.tsx:158-179 | with at least one progress entry, exactly one card is running |
| `Generation.GenerationPage.constructor` | app/page.tsx:24-28 | the page starts with an empty topic, no progress, no error, no finished id, not streaming and no feed |
| `Generation.GenerationPage.Edit` | app/page.tsx:36 | typing sets the topic |
| `Generation.GenerationPage.Submit` | app/page.tsx:39-55 | progress, finished id and error are reset; a blank topic sets error "Please enter a topic." and opens no feed; any other topic clears the error, enters streaming and opens exactly one feed; the topic is unchanged |
| `Generation.GenerationPage.OnMessage` | app/page.tsx:57-75 | a non-`DONE::` message is appended once at the end of progress, and nothing else changes; a `DONE::` message that parses records the post id, closes the feed once, stops streaming and clears the topic, without appending; one that fails to parse changes nothing; progress only grows |
| `Generation.GenerationPage.OnError` | app/page.tsx:77-81 | error becomes "Streaming error. Try again.", the feed is closed once and streaming stops; progress, finished id and topic are unchanged |
| `Articles.ReplaceLeavesNone` | app/generated_articles/page.tsx:29-30 | replacing a pattern by bracket-free text leaves no case-insensitive occurrence of a bracketed placeholder, when that placeholder is the pattern or was absent before, and its word does not contain the replacement |
| `Articles.InjectMetadata` | app/generated_articles/page.tsx:26-31 | the injected text only holds characters of the Markdown, of the author name or of the date; what each placeholder becomes is stated by `InjectAtAuthor` and `InjectAtDate`, for surrounding text with any brackets but no placeholder, and the other properties by `InjectWithoutPlaceholders`, `InjectLeavesNoPlaceholder` and `InjectIdempotent` |
| `Articles.InjectAtAuthor` | app/generated_articles/page.tsx:28-30 | `[Author Name]` in any letter case becomes `PaceFlow`, whatever the date, and the texts on either side are kept, Markdown links and other brackets included, when neither holds a placeholder |
| `Articles.InjectAtDate` | app/generated_articles/page.tsx:27-30 | `[Date]` in any letter case becomes the date, and the texts on either side are kept, brackets included, when neither holds a placeholder |
| `Articles.InjectNextToLink` | app/generated_articles/page.tsx:28-30 | brackets right next to a placeholder are kept: `[` + `[Author Name]` + `]` becomes `[PaceFlow]` |
| `Articles.InjectWithoutPlaceholders` | app/generated_articles/page.tsx:26-31 | Markdown with no case-insensitive `[Author Name]` or `[Date]` is returned unchanged |
| `Articles.InjectLeavesNoPlaceholder` | app/generated_articles/page.tsx:28-30 | after injection with a `YYYY-MM-DD` date, neither placeholder occurs, in any letter case |
| `Articles.InjectIdempotent` | app/generated_articles/page.tsx:26-30 | for a fixed date, injecting twice equals injecting once |
| `Articles.RemoveMarks` | app/generated_articles/page.tsx:38 | the result has none of `# _ * \` > -`, takes its characters from the input, and equals the input when the input has none of them; that each other character is kept in order is stated by `RemoveMarksAppend` and `RemoveMarksOfChar` |
| `Articles.RemoveMarksAppend` | app/generated_articles/page.tsx:38 | each part of a text loses its own symbols and nothing else: removal distributes over concatenation |
| `Articles.RemoveMarksOfChar` | app/generated_articles/page.tsx:38 | a single symbol disappears and any other single character stays |
| `Articles.ReplaceRunsKeepsText` | app/generated_articles/page.tsx:39-40 | collapsing white-space runs keeps every other character in order |
| `Articles.Cleaned` | app/generated_articles/page.tsx:37-41 | the cleaned text is no longer than the Markdown and holds only its characters or spaces; its other properties are stated by `CleanedHasNoMarks`, `CleanedSpacing`, `CleanedKeepsWords` and `CleanedOfTwoWords` |
| `Articles.CleanedHasNoMarks` | app/generated_articles/page.tsx:37-41 | the cleaned text contains none of the Markdown symbols |
| `Articles.CleanedSpacing` | app/generated_articles/page.tsx:37-41 | the cleaned text has no leading or trailing white space and no two adjacent white space characters; its only white space is the plain space |
| `Articles.CleanedKeepsWords` | app/generated_articles/page.tsx:37-41 | cleaning keeps, in order, every input character that is neither white space nor a Markdown symbol |
| `Articles.CleanedOfTwoWords` | app/generated_articles/page.tsx:37-41 | two words separated by any white space, newlines included, are cleaned to the two words separated by one space |
| `Articles.CreatePreview` | app/generated_articles/page.tsx:36-46 | the preview has at most `length` + 1 characters; it is longer than `length` exactly when the cleaned text is, i.e. when it was truncated; an untruncated preview is the whole cleaned text; a truncated one is the first `length` characters of the cleaned text followed by one `…` |
| `Articles.PreviewOfSymbolsOnly` | app/generated_articles/page.tsx:36-46 | input made only of Markdown symbols and white space, the empty input included, gives the empty preview |
| `Articles.PostPreview` | app/generated_articles/page.tsx:126 | a listed post's preview has at most 501 characters |
| `Articles.Reverse` | app/generated_articles/page.tsx:61 | the shown list has the fetched length, and position i shows fetched element n-1-i |
| `Articles.ReverseSameElements` | app/generated_articles/page.tsx:61 | the shown list holds the same posts as the fetched one, each as often |
| `Articles.DisplayTitle` | app/generated_articles/page.tsx:116 | the heading is the SEO title when it is present and non-empty, and otherwise the topic; it is empty only when the topic is |
| `Articles.IsExpanded` | app/generated_articles/page.tsx:105 | a post is expanded when its id is the expanded id; its properties are stated by `AtMostOneExpanded` and `ArticlesPage.Toggle` |
| `Articles.AtMostOneExpanded` | app/generated_articles/page.tsx:105 | when the listed ids are distinct, at most one post is expanded |
| `Articles.ArticlesPage.constructor` | app/generated_articles/page.tsx:52-54 | the page starts loading, with no posts and none expanded |
| `Articles.ArticlesPage.FinishLoading` | app/generated_articles/page.tsx:56-70 | when the request settles, loading ends; on success the posts are the fetched array reversed; on failure they are unchanged |
| `Articles.ArticlesPage.Toggle` | app/generated_articles/page.tsx:132 | toggling the expanded post collapses it; toggling any other post expands it; afterwards no post with a different id is expanded |

## Left out

- The event-feed transport, the `fetch` of the listing, URL building with `encodeURIComponent`, and the `API_BASE_URL` fallback (`app/page.tsx:20-21,52-55`; `app/generated_articles/page.tsx:20-21,59-60`). Feed events are method calls, and the listing response is an argument.
- `JSON.parse` is a decoder passed to `GenerationPage`. A payload that parses but has no `id` field, which would record `undefined`, is not modelled.
- `Generation.GenerationPage.Submit`: a submission while a feed is open is not modelled, because the submit button is disabled while streaming (`app/page.tsx:122`). `OnMessage` and `OnError` need the feed to be open, because a closed event source delivers no events.
- `Generation.GenerationPage.Edit`: the textarea height adjustment and the missing-ref early return (`app/page.tsx:30-37,69`) are presentation and are not modelled.
- React batching: state updates are applied immediately and in program order.
- Unmounting while streaming is not modelled. The page has no effect cleanup, and the feed is closed only at `app/page.tsx:66` and `app/page.tsx:79`. A page left mid-stream keeps its feed open, and its callbacks still reach the unmounted component. A page mounted later starts with `isStreaming` false and can open a second feed beside it.
- The progress-bar width (`app/page.tsx:151`) is cosmetic floating-point arithmetic.
- The clock and locale: `today` is an argument. `Articles.InjectLeavesNoPlaceholder` and `Articles.InjectIdempotent` require it to have the `YYYY-MM-DD` shape, which `toISOString().slice(0, 10)` gives for years 0000 to 9999. `toLocaleString` (`app/generated_articles/page.tsx:121`) is not modelled.
- `Articles.CreatePreview`: `length` is a natural number. The page only uses the default of 500, so negative and fractional lengths are not modelled.
- Strings are sequences of Unicode characters. JavaScript measures `length` and `substring` in UTF-16 code units, which can split a surrogate pair. The model makes no claim about where such a cut falls.
- `JsString.ReplaceFirst`: the replacement text is taken literally. JavaScript's `replace` with a string replacement expands `$$`, `$&`, `` $` `` and `$'`, which the model does not. The page only replaces with `""`, which has no `$`.
- `JsString.ReplaceAllCI`: the replacement text is taken literally, without the `$` patterns above. The page only replaces with `PaceFlow` and a `YYYY-MM-DD` date, which have no `$`.
- Case-insensitive matching uses ASCII letter folding. For the ASCII placeholders this is what a non-Unicode `/i` regular expression matches.
- Rendering is not modelled: the JSX, the Markdown renderer, the Tailwind classes, `app/layout.tsx` and `tailwind.config.js`.
