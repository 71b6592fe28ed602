# Nightfury form helper: parser, renderer and answer provider in Dafny

Nightfury is a browser extension for Google Forms. Its content script reads every question
container of the form (`parseForm`), sends the parsed questions to its background worker, and
marks the options the answers name (`displaySingleAnswer`). It also keeps the received answers
(`storedAnswers`) and lets the user show or hide everything it injected (`toggleVisibility`).
The background worker builds one prompt per question and asks the language model up to three
times per question (`getGeminiAnswers`).

This project models those pieces and proves what they promise:

- `wrappers.dfy`: `Option`, which stands for JavaScript's `null`, `undefined` and `NaN`.
- `strings.dfy`: the string built-ins the code relies on.
  - `trim` with JavaScript's white space.
  - `toLowerCase` for ASCII letters.
  - `includes` and `startsWith`.
  - `split` on a set of characters, and `join`.
  - `${n}` for natural numbers, and `parseInt`.
  - Round-trip lemmas: split after join, and `parseInt` after `${n}`.
- `dom.dfy`: a question container is a sequence of elements in document order.
  - Element 0 is the `.Qr7Oae` root, and every parent comes before its children.
  - A small `Sel` datatype (tag, attribute, role, class, compound) stands in for CSS selectors.
  - `querySelectorAll`, `querySelector`, `closest`, `parentElement` and `children` become functions.
  - The `page` holds the containers and the text of the elements `getElementById` can reach.
- `form_parser.dfy`:
  - `getVisibleText`, and `findQuestionText` with its longest-text-under-500 search.
  - The label cascade of `collectLabelsFromNodes`, which dedupes while keeping order.
  - The `&quot;` token scan of the `data-params` branch.
  - The classification cascade, and `parseForm`.
  - The loops of the source are methods proved equal to the functions that specify them.
- `answer_renderer.dfy`: what `displaySingleAnswer` does, as a function from the injected nodes
  before a call to those after it.
  - Recovering the index from the id.
  - The failure early return.
  - The `answersList` pipeline, and the three-way containment match.
  - `findVisualLabel`.
  - The per-container dedupe and the indicator guard of the choice branch.
  - The list, text and fallback branches.
- `answer_marks.dfy`: which options the choice and list branches mark.
  - The choice branch marks, for every parent container of the option nodes, the visual label
    of the first option of that container whose label matches a token, and nothing else.
  - The list branch marks the visual label of every matching list option.
- `session.dfy`: the content script's module state as a class `RenderSession`. Its fields are
  `storedAnswers` (`null` or a list), `answersVisible`, and the injected nodes. Each injected
  node records its container, its anchor element, its kind (indicator or answer div), its text
  and its display flag. The message-handler actions and `clearInjectedElements` are methods,
  and so is `toggleVisibility`. `displaySingleAnswer` is a method proved equal to the renderer's
  function.
- `answer_provider.dfy`:
  - The two prompts.
  - The retry loop as a method over the outcomes the requests would have had.
  - Its specification function, and the batch of replies.

Injected nodes are kept beside the page rather than inside it. Later queries of the page do not
see them; the indicator guard looks at the injected indicators anchored on the visual element or
inside it. The answer is split on line feeds, `;` and `,`. A carriage return in front of a line
feed stays on its piece, where the following `trim` removes it, so the tokens are those of
`/\r?\n|;|,/`.

## Model

| member | source | states |
|---|---|---|
| Strings.Trim | nightfury/content.js:49-50 | `trim` drops leading and trailing JavaScript white space: the result is no longer than the input and neither starts nor ends with white space |
| Strings.TrimStartDropsSpace | nightfury/content.js:50 | everything `trim` removes in front is white space |
| Strings.TrimEndDropsSpace | nightfury/content.js:50 | everything `trim` removes at the end is white space |
| Strings.TrimOfTrimmed | nightfury/content.js:271 | trimming a trimmed string changes nothing |
| Strings.Lower | nightfury/content.js:273 | `toLowerCase` keeps the length, leaves no upper-case letter, and leaves a string without upper-case letters unchanged |
| Strings.ContainsAt | nightfury/content.js:220 | `includes` holds exactly when the text occurs at some position |
| Strings.ContainsInfix | nightfury/content.js:208 | a string includes every infix it was built with |
| Strings.ContainsExtend | nightfury/content.js:220 | an included text stays included when the string is extended on either side |
| Strings.JoinContains | nightfury/background.js:21 | every part is included in the joined string |
| Strings.Split | nightfury/content.js:270 | `split` gives at least one piece and no piece holds a separator |
| Strings.SplitJoin | nightfury/background.js:21 | splitting a join of separator-free parts on the separator gives the parts back |
| Strings.SplitRebuilds | nightfury/content.js:270 | every string is its split pieces written back with its separator characters, in order, as the gaps |
| Strings.SplitInterleave | nightfury/content.js:270 | splitting separator-free pieces interleaved with any separator characters (a different one in each gap) gives the pieces back; with SplitRebuilds this fixes the pieces of every string |
| Strings.ParseNatToString | nightfury/content.js:203 | `parseInt` of `${n}` is `n` |
| Strings.ParseDecimal | nightfury/content.js:203 | `parseInt` of a decimal digit string without a superfluous leading zero is its value |
| Strings.NatToStringAvoids | nightfury/content.js:107 | `${n}` holds only digits, so it contains no `-` |
| Dom.QueryAllSpec | nightfury/content.js:62 | `querySelectorAll` gives exactly the descendants that match, in document order, without repeats |
| Dom.QuerySpec | nightfury/content.js:56 | `querySelector` gives the first matching descendant in document order: it matches, no earlier descendant matches, and nothing is given exactly when no descendant matches |
| Dom.ClosestSpec | nightfury/content.js:294 | `closest` gives the element itself when it matches, else its nearest matching ancestor, with nothing matching in between; nothing is given exactly when neither the element nor any ancestor matches |
| Dom.ChildrenSpec | nightfury/content.js:224 | `children` lists every child of the element, and only children, each once, in document order |
| FormParser.VisibleText | nightfury/content.js:46-53 | getVisibleText is trimmed; an aria-label that is not blank wins, trimmed, over the text, and otherwise the trimmed text is given, so the result is empty exactly when both trim to nothing |
| FormParser.LongestIsEarliestLongest | nightfury/content.js:62-68 | the search keeps the earliest longest text under 500 characters, and gives "" exactly when every text is empty or 500 characters or longer |
| FormParser.FirstNonEmptyLine | nightfury/content.js:70 | the first non-empty trimmed line is one of the trimmed lines, and "" exactly when all lines trim to nothing |
| FormParser.FirstNonEmptyLineIsFirst | nightfury/content.js:70 | `find(Boolean)` gives the first line that trims to something: every line before it trims to "" |
| FormParser.FindQuestionText | nightfury/content.js:55-71 | the loop over the descendants returns the question text: title, else heading, else the longest text, else the first line |
| FormParser.QuestionTextTrimmed | nightfury/content.js:55-71 | the question text is always trimmed |
| FormParser.LabelOf | nightfury/content.js:76-86 | the cascade for one node: aria-label, else the labelledby target's text, else its own text, else the first span, label or div under its parent |
| FormParser.CollectLabelsFromNodes | nightfury/content.js:73-90 | the loop gives the cascade labels of the nodes, empties dropped and duplicates skipped |
| FormParser.DedupeSpec | nightfury/content.js:87 | the kept labels are non-empty and distinct, they are exactly the non-empty input labels, and each comes before the next in the order of their first occurrences in the input |
| FormParser.CollectLabelsClean | nightfury/content.js:73-90 | collected labels are non-empty and distinct |
| FormParser.QuotTokens | nightfury/content.js:173 | every token of the `&quot;` scan is non-empty and free of `&` |
| FormParser.QuotTokensOfQuoted | nightfury/content.js:173 | scanning a concatenation of quoted `&`-free tokens gives the tokens back |
| FormParser.QuotTokensOfEncoded | nightfury/content.js:173 | scanning quoted `&`-free tokens with any `&`-free filler around and between them (`[`, `,`, `]`) gives the tokens back |
| FormParser.KeptTokens | nightfury/content.js:174 | kept tokens are shorter than 100 characters, match none of the noise words, and come from the scan |
| FormParser.KeptTokensSpec | nightfury/content.js:174 | the filter keeps every passing token and nothing else, in scan order: the k-th kept token is the token at the k-th passing position |
| FormParser.DataParamsOptions | nightfury/content.js:172-174 | every data-params option is non-empty, `&`-free, under 100 characters and not noise |
| FormParser.DataParamsOfEncoded | nightfury/content.js:172-174 | a value of quoted tokens among `&`-free filler gives exactly the tokens that pass the filter, in order |
| FormParser.DataParamsAtLeastTwo | nightfury/content.js:175-178 | the data-params branch decides only with two or more options |
| FormParser.OptionTexts | nightfury/content.js:148-150 | the dropdown options are non-empty texts |
| FormParser.OptionTextsSpec | nightfury/content.js:148-150 | the dropdown options are the option nodes' trimmed texts in node order with exactly the empty ones dropped; every node with a non-empty text contributes it |
| FormParser.GridProbeClean | nightfury/content.js:102-110 | the grid branch gives a grid with non-empty, distinct column labels |
| FormParser.RoleProbeClean | nightfury/content.js:112-143 | a role branch gives its own type with non-empty, distinct labels, so an empty label list falls through |
| FormParser.FallbackProbeClean | nightfury/content.js:181-189 | the generic scan gives mcq or checkboxes with non-empty, distinct labels |
| FormParser.GridBranch | nightfury/content.js:102-110 | the grid branch method agrees with the grid probe |
| FormParser.RoleBranch | nightfury/content.js:112-143 | the listbox, radiogroup and checkbox-group branch method agrees with the role probe |
| FormParser.SelectBranch | nightfury/content.js:145-155 | the dropdown branch method agrees with the select probe |
| FormParser.TextBranch | nightfury/content.js:157-167 | a textarea gives a paragraph, else a text, email or number input gives a short answer, neither with options |
| FormParser.DataParamsBranch | nightfury/content.js:169-179 | the data-params branch method agrees with its probe |
| FormParser.FallbackBranch | nightfury/content.js:181-189 | the fallback method scans at most 50 nodes and is mcq exactly when a radio exists |
| FormParser.ParseContainer | nightfury/content.js:99-191 | the branch chain with its early returns agrees with the first-match classification cascade |
| FormParser.ClassifyWellShaped | nightfury/content.js:102-191 | paragraphs and short answers, and only they, carry no options; unknown carries []; the other types carry non-empty labels |
| FormParser.EmptyContainerIsUnknown | nightfury/content.js:191 | a container with nothing inside is unknown with [] options |
| FormParser.ParseQuestionSpec | nightfury/content.js:99-191 | the question for container idx has id `question-${idx}`, a non-empty text that is trimmed or the id itself, and a well-shaped type |
| FormParser.ParseForm | nightfury/content.js:95-196 | the forEach builds one question per container, in container order |
| FormParser.ParseQuestionsAt | nightfury/content.js:96-100 | the i-th parsed question is the question of the i-th container |
| AnswerRenderer.QuestionIndexOfId | nightfury/content.js:203 | the index read back from `question-${idx}` is idx |
| AnswerRenderer.QuestionIdInjective | nightfury/content.js:107 | two containers get the same id exactly when they have the same index |
| AnswerRenderer.TargetOfId | nightfury/content.js:202-205 | the id of container idx finds container idx, and finds nothing when idx is out of range |
| AnswerRenderer.AnswerTokensClean | nightfury/content.js:269-273 | every answer token is non-empty, trimmed, lower-case and free of separators |
| AnswerRenderer.CleanTokensOfClean | nightfury/content.js:271-273 | trimming, dropping empties and lower-casing leaves clean tokens unchanged |
| AnswerRenderer.AnswerTokensOfLines | nightfury/content.js:269-273 | clean tokens joined by line feeds split back into the same tokens |
| AnswerRenderer.AnswerTokensOfSeparated | nightfury/content.js:269-273 | clean tokens separated by any mix of line feeds, semicolons and commas are read back as they are |
| AnswerRenderer.EmptyLabelMatches | nightfury/content.js:289-291 | an option with an empty label matches exactly when there is any token, because "" is contained in every token |
| AnswerRenderer.BlankAriaLabel | nightfury/content.js:283-288 | a blank aria-label is skipped by the choice branch's cascade but, untrimmed, wins in the list branch's cascade, leaving an empty label |
| AnswerRenderer.VisualLabelSpec | nightfury/content.js:214-234 | findVisualLabel gives the option, a descendant naming the label, a sibling naming the label, or a labelled element under the parent; with an empty label only the last or the option itself |
| AnswerRenderer.FindNaming | nightfury/content.js:216-229 | the candidate loop returns the first candidate (other than the one skipped) naming the label |
| AnswerRenderer.FindVisualLabel | nightfury/content.js:214-234 | the method with its loops returns the visual label the function describes |
| AnswerRenderer.MarkVisualExtends | nightfury/content.js:304-312 | marking a visual element only appends, adds at most one node, and leaves an indicator on it |
| AnswerRenderer.MarkChoicesExtends | nightfury/content.js:282-314 | the choice loop only appends nodes in its container, shown as answers are, never more than the containers it marks |
| AnswerMarks.PickFirstsSpec | nightfury/content.js:279-300 | the forEach with `markedContainers` picks, in order, exactly the first matching option of every parent container, and records exactly the containers of the matching options |
| AnswerMarks.ChoiceMarksMatching | nightfury/content.js:282-314 | after the choice branch, every option whose label matches a token has an indicator on the visual label of the first matching option of its parent container |
| AnswerMarks.ChoiceOnePerContainer | nightfury/content.js:279-314 | the choice branch keeps the earlier nodes and appends only indicators, each on the visual label of a first matching option of its container, and no two of them for options of the same parent container |
| AnswerMarks.ListMarksEvery | nightfury/content.js:321-338 | after the list branch, every list option whose label matches a token has an indicator on its visual label |
| AnswerMarks.ListMarksOnly | nightfury/content.js:321-343 | the list branch keeps the earlier nodes and appends indicators only on visual labels of matching options, in option order, then the answer div when the list has a parent |
| AnswerRenderer.GuardNoTwins | nightfury/content.js:304 | under the guard no element carries two indicators |
| AnswerRenderer.MarkChoicesGuard | nightfury/content.js:304 | the choice branch never puts an indicator on an element that already holds one, or that contains one |
| AnswerRenderer.MarkListOptionsGuard | nightfury/content.js:333 | the list branch never puts an indicator on an element that already holds one, or that contains one |
| AnswerRenderer.ChoiceStep | nightfury/content.js:278-316 | the choice branch appends indicators only, keeps the guard and adds no answer div |
| AnswerRenderer.ListStep | nightfury/content.js:321-343 | the list branch keeps the guard and appends one answer div after the list container's parent, when there is a list container with a parent |
| AnswerRenderer.TextStep | nightfury/content.js:348-355 | the text branch appends exactly one answer div, under the parent of the first text input or textarea, and nothing else; without that element or its parent it appends nothing |
| AnswerRenderer.FallbackStep | nightfury/content.js:360-361 | any other type appends one answer div to the container |
| AnswerRenderer.RenderedSpec | nightfury/content.js:201-362 | nothing changes without a target or on a failure; otherwise its branch's step holds |
| AnswerRenderer.RenderedSilent | nightfury/content.js:202-211 | an out-of-range index or an empty or ERROR answer changes nothing, whatever the type |
| AnswerRenderer.DivsAccumulate | nightfury/content.js:340-361 | showing the same divided answer twice leaves two answer divs: nothing is replaced |
| AnswerRenderer.MarkChoicesWalk | nightfury/content.js:282-314 | the choice loop is a walk picking the visual labels, followed by marking each of them |
| AnswerRenderer.MarkAllMarked | nightfury/content.js:304 | marking elements that already hold indicators changes nothing |
| AnswerRenderer.ChoiceIdempotent | nightfury/content.js:278-316 | a second choice render of the same tokens adds nothing |
| AnswerRenderer.ChoiceRerender | nightfury/content.js:278-316 | re-delivering a choice answer leaves the page as one delivery does |
| Session.AnswerIndex | nightfury/content.js:32 | findIndex gives the first stored answer with the id, or nothing when none has it |
| Session.FindAnswerIndex | nightfury/content.js:32 | the findIndex loop agrees with AnswerIndex |
| Session.UpsertSpec | nightfury/content.js:30-34 | the upsert keeps ids unique, maps the id to the new answer, other ids to what they had, and grows the list exactly when the id is new |
| Session.UpsertIdempotent | nightfury/content.js:30-34 | upserting the same answer twice is upserting it once |
| Session.SetVisibleSpec | nightfury/content.js:379-381 | setting the display shows every node with the new value, keeps the guard, and setting it back restores the nodes |
| Session.ToggleTwice | nightfury/content.js:372-382 | flipping the display twice restores every node |
| Session.RenderedKeeps | nightfury/content.js:250-264 | new nodes start hidden exactly when answers are hidden, so every node keeps the current display, and the guard still holds |
| Session.RenderSession.constructor | nightfury/content.js:5-6 | a new session has no stored answers, hides answers and has injected nothing |
| Session.RenderSession.ClearInjectedElements | nightfury/content.js:368-370 | every injected node is removed and nothing else changes |
| Session.RenderSession.LoadAnswers | nightfury/content.js:12-24 | load clears, stores [], shows answers, and requests the parsed questions exactly when there is a container |
| Session.RenderSession.AddIndicator | nightfury/content.js:236-254 | makeIndicator under the guard: one indicator, shown as answers are, unless the element already holds one |
| Session.RenderSession.AddAnswerDiv | nightfury/content.js:256-266 | makeAnswerDiv: one answer div with the text, shown as answers are, appended |
| Session.RenderSession.ChoiceBranch | nightfury/content.js:278-316 | the forEach with markedContainers injects what the choice branch function describes |
| Session.RenderSession.ListBranch | nightfury/content.js:321-343 | the list branch injects what the list function describes |
| Session.RenderSession.TextBranch | nightfury/content.js:348-355 | the text branch injects what the text function describes |
| Session.RenderSession.DisplaySingleAnswer | nightfury/content.js:201-362 | displaySingleAnswer injects exactly what the renderer's function gives and leaves the stored answers and the flag alone |
| Session.RenderSession.ReceiveAnswer | nightfury/content.js:26-36 | the message action upserts into the stored answers (an empty list when there were none), renders the answer, and keeps the session invariant |
| Session.RenderSession.ToggleVisibility | nightfury/content.js:372-382 | no change without stored answers; otherwise the flag flips and every node shows the new value |
| AnswerProvider.PromptQuotesQuestion | nightfury/background.js:12-22 | the corrected prompt of every question, direct or option, contains `Question: "<text>"` |
| AnswerProvider.PromptListsOptions | nightfury/background.js:15-22 | for a type other than short answer and paragraph, the prompt contains the `- "opt"` line of every option |
| AnswerProvider.OptionLinesRoundTrip | nightfury/background.js:21 | the option block splits back into one line per option |
| AnswerProvider.PromptCorrected | nightfury/background.js:12-22 | building the prompt as written fails exactly for a non-short-answer question without options; wherever it succeeds for a type other than paragraph, it is the corrected prompt |
| AnswerProvider.FreeTextPrompt | nightfury/background.js:12-13 | the corrected prompt is the direct prompt exactly for short answers and paragraphs, the two free-text types |
| AnswerProvider.ParsedPromptCorrected | nightfury/background.js:12-22 | for a parsed paragraph the code throws and the corrected prompt is the direct one; for every other parsed question the corrected prompt is the code's prompt |
| AnswerProvider.ParsedPromptFails | nightfury/background.js:21 | among parsed questions, building the prompt fails exactly for paragraphs |
| AnswerProvider.ResolveQuestion | nightfury/background.js:25-55 | the for loop with its early returns and continue gives the answer, request count and delays of the retry specification |
| AnswerProvider.RetrySpec | nightfury/background.js:25-55 | from any attempt: at most the remaining requests and at least one, the k-th delay is 1000 times its attempt, every request waited after was retryable (or a throw before the last attempt), and the answer is the one the last request decides (the trimmed first candidate or the no-response reply for an ok response, `API_ERROR: <message>` for a response that is not retryable, `FETCH_ERROR: <message>` for a throw on the last attempt) or the overloaded reply when every attempt was retried |
| AnswerProvider.RetryBounds | nightfury/background.js:25-26 | between one and three requests per question, with delays of 1000, 2000 and 3000 ms in that order, one fewer delay than requests unless the loop ran out |
| AnswerProvider.ThreeRetryable | nightfury/background.js:42-55 | three retryable outcomes give the overloaded reply after three requests and waits of 1, 2 and 3 seconds, whatever a fourth request would give |
| AnswerProvider.ThrownLast | nightfury/background.js:49-53 | an exception on the third attempt gives the fetch error after two waits and no third |
| AnswerProvider.ErrorReplies | nightfury/background.js:47-51 | `API_ERROR: ` and `FETCH_ERROR: ` replies are error replies |
| AnswerProvider.ErrorReplyIsFailure | nightfury/background.js:37-55 | every error reply contains ERROR, so the content script only logs it |
| AnswerProvider.GetAnswers | nightfury/background.js:8-58 | the corrected batch, in which every question gets a prompt: one reply per question; the code as written is AnswerProvider.GetAnswersAsWritten, which gives no replies when a prompt throws |
| AnswerProvider.GetAnswersSpec | nightfury/background.js:8-58 | the k-th reply carries the k-th question's id and the answer decided by the first of its requests that is not retried, or the overloaded reply when all three are; it is an error reply unless an ok response gave it |
| AnswerProvider.ParagraphBreaksBatch | nightfury/background.js:21 | one question without options that is not a short answer leaves the batch as written with no replies at all |
| AnswerProvider.ParsedParagraphBreaksBatch | nightfury/background.js:21 | a form with a paragraph question gets no replies as written |
| AnswerProvider.ReplyRendered | nightfury/background.js:37-55 | a reply carries no type: an error reply shows nothing and any other reply becomes one answer div at the end of its container |

## Left out

- The message listeners and command wiring (nightfury/content.js:11-41 apart from the load, receive and toggle actions; nightfury/background.js:62-78) are transport glue. The background sends `displayAnswers`, an action the content script never handles; that mismatch is wiring and is not modelled.
- nightfury/options.js is not part of this model: it is a settings page storing one key.
- `fetch`, JSON bodies, `setTimeout` and `console` are not modelled. Each request is replaced by the outcome it would have had, and each wait by the delay it asks for.
- `Promise.all` concurrency is not modelled. The batch is the per-question computation, in question order.
- CSS selector matching is replaced by the `Sel` datatype, and `innerText`/`textContent` layout by one text field per element.
- Dom.ClosestSpec: stops at the container root, while the browser's `closest` can climb above the question container.
- Injected nodes are not seen by later page queries, by `textContent`, or by `findVisualLabel`. Page elements are assumed not to carry the extension's marker classes.
- The try/catch `appendChild` fallbacks (nightfury/content.js:306-311, 335) and all styling are left out. A node is created under its anchor with its display flag.
- AnswerRenderer.ChoiceStep: states the shape of the choice branch (appends indicators only, keeps the guard, adds no answer div), not which options it marks; AnswerMarks.ChoiceMarksMatching and AnswerMarks.ChoiceOnePerContainer state that.
- AnswerRenderer.RenderedSpec: states the shape of each branch only; the marked options are stated by the AnswerMarks lemmas.
- AnswerRenderer.ListStep: states the shape of the list branch, not which options it marks; AnswerMarks.ListMarksEvery and AnswerMarks.ListMarksOnly state that. Also, a list container without a parent element makes `parentElement.appendChild` throw. The model appends nothing, which leaves the same nodes as the thrown call. The same holds for AnswerRenderer.TextStep.
- Strings.Lower: maps ASCII letters only, while `toLowerCase` maps every Unicode letter.
- String lengths are counted in characters, not UTF-16 code units. This affects the 500 and 100 character limits.
- Strings.ParseLeadingInt: reads exact integers, without the precision loss of numbers above 2^53.
- AnswerProvider.ResolveQuestion: asks for at least three outcomes, one per possible attempt. An attempt that is never made never looks at its outcome.
- AnswerProvider.Retry: the same three-outcome requirement as ResolveQuestion.
- Responses whose body is not JSON, or whose first candidate has no text, are modelled as thrown outcomes, because `response.json()` or the property access throws into the catch.
- An error message that is not a string is not modelled.
- Three behaviours a reader might not expect; the model keeps them as the code has them:
  - One might expect a text question to show even an error reply. The failure early return (nightfury/content.js:208-211) comes first, so the renderer is silent for every question type, text types included.
  - One might expect a second delivery of an answer to replace its div. List, text and fallback answer divs accumulate on every call instead.
  - One might expect each reply to be drawn by its question type's branch. Replies carry no question type, so every reply lands in the fallback branch.

## Findings

| source | as written | input that shows it | evidently intended | confidence | as-written member | corrected member |
|---|---|---|---|---|---|---|
| nightfury/background.js:21 | every question that is not a short answer gets the option prompt, which maps over `q.options`; a paragraph question has no `options`, so building its prompt throws, and `Promise.all` rejects for the whole batch | a form with one container holding a `textarea`: parseForm records it as a paragraph without options | a paragraph, like a short answer, is free text and gets the direct "answer directly" prompt; the option prompt is meant for the choice types only (background.js:14), so every question gets a prompt and a reply | not executed | AnswerProvider.ParsedParagraphBreaksBatch | AnswerProvider.ParsedPromptCorrected |

The as-written half is AnswerProvider.PromptAsWritten, which gives no prompt for a question
without options, and AnswerProvider.GetAnswersAsWritten, which gives no replies once any prompt
fails. ParsedPromptFails, ParagraphBreaksBatch and ParsedParagraphBreaksBatch exhibit the
failure. The corrected AnswerProvider.Prompt gives both free-text types, short answer and
paragraph, the direct prompt; a question of another type that has no options gets an empty
option list. FreeTextPrompt shows the direct prompt goes to exactly the free-text types.
PromptCorrected and ParsedPromptCorrected show the corrected prompt agrees with the code
wherever the code builds a prompt, except for the paragraph it was building wrongly.
PromptQuotesQuestion shows every question's prompt quotes it, and GetAnswers and GetAnswersSpec
give every question its reply.
