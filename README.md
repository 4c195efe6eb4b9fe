# Book summary card: a Dafny model of its request and view logic

The application turns a book title into a summary card. The title goes to a
hosted language model, and the model's JSON reply is rendered as a card. The
card shows a summary, takeaways, a quote, a theme colour, and three pages of
detailed analysis that the reader pages through. This project models the
parts of the application that are logic rather than rendering or network
code, and it proves their properties:

- **The request service** (`generateBookCard`). This covers taking the reply
  text, stripping a Markdown code fence with a regular expression, the
  fail-closed shape check on the decoded value, and re-throwing every failure
  as one `Error` with a fixed prefix. The model call is an input
  (`ModelResponse`). `JSON.parse` is a parameter
  (`parse: string -> ParseOutcome`). Parsed values are a small JSON datatype,
  so the shape check's JavaScript truthiness tests, `Array.isArray` and
  `length` are modelled as written.
- **The result card** (`GeneratedCard`). This covers the hex-colour test and
  its fallback accent, the details toggle, the circular next and previous
  pagination (written with JavaScript's truncating `%`), and the page
  indicator. The card's local state is the class `CardView.GeneratedCard`.
- **The controller** (`App`). Its four state fields are in the class
  `Controller.App`. `handleGenerate` awaits the service, so it is split into
  `StartGenerate` (blank-title guard, then loading starts) and
  `FinishGenerate` (card or error, then loading ends). `HandleGenerate` runs
  both steps with the service in between. It is also the retry action.
  `HandleReset` is the reset action.

Modules: `Wrappers` (Option), `JsText` (JavaScript `trim`, `\s`, `\w`),
`Json` (parsed values, property access, truthiness), `Types` (the
`BookCardData` record), `GeminiService`, `CardView` and `Controller`.

The regular expression ``/^```(\w*)?\s*\n?(.*?)\n?\s*```$/s`` is modelled at
the character level. `InnerBodyMatches` proves that `FenceBody` describes a
match of the pattern. `InnerBodyIsFirstMatch` proves that this match is the
first one a backtracking matcher tries: the greedy `\w*` and `\s*` take their
longest runs, and the lazy `.*?` takes the shortest body. So `FenceBody` is
exactly the captured group 2.

The model follows what the code does, including where it differs from what
the code asks for or would seem to intend:
- The prompt asks for exactly three analysis entries
  (services/geminiService.ts:33), but the check at line 68 accepts three or
  more. The model accepts three or more.
- App.tsx has no guard against a response that arrives after a reset or a
  newer request: lines 29-33 apply the outcome whatever the state is then.
  `FinishGenerate` does the same.
- The API-key check at services/geminiService.ts:4-6 is left out (see below).

## Model

| member | source | states |
|---|---|---|
| `JsText.Trim` | services/geminiService.ts:48 | `trim` leaves the input as white space, then the result, then white space, and the result has no white space at either end |
| `JsText.TrimPadded` | services/geminiService.ts:48 | trimming white space + trimmed core + white space gives back exactly the core |
| `JsText.TrimOfTrimmed` | services/geminiService.ts:54 | a string without white space at its ends is left unchanged by `trim` |
| `JsText.TrimIdempotent` | services/geminiService.ts:54 | trimming twice is trimming once |
| `JsText.TrimBlank` | App.tsx:18 | `trim` gives the empty string exactly when every character is white space |
| `JsText.LeadingSpaces` | services/geminiService.ts:51 | the longest run of `\s` at the start: all of it white space, and the next character is not |
| `JsText.TrailingSpaces` | services/geminiService.ts:51 | the longest run of `\s` at the end: all of it white space, and the character before it is not |
| `JsText.LeadingWordChars` | services/geminiService.ts:51 | the longest run of `\w` at the start: all of it word characters, and the next character is not |
| `JsText.TrimEnd` | services/geminiService.ts:51 | the input is the result followed by white space only, and the result does not end in white space |
| `JsText.TrimStart` | services/geminiService.ts:48 | the input is white space only followed by the result, and the result does not start with white space |
| `Json.Member` | services/geminiService.ts:61-68 | property access gives a value exactly for an object's own key, and that key's value |
| `GeminiService.FenceBody` | services/geminiService.ts:51-52 | the pattern matches exactly when the text starts and ends with three backticks, and the captured body has no white space at its ends |
| `GeminiService.InnerBody` | services/geminiService.ts:51 | the captured body has no white space at its ends and is the slice of the text between the fences that starts where the greedy runs end |
| `GeminiService.InnerBodyMatches` | services/geminiService.ts:51 | word run, white-space run, body and trailing white space form a match of the pattern |
| `GeminiService.InnerBodyIsFirstMatch` | services/geminiService.ts:51 | of all matches of the pattern this one comes first in backtracking order: longest `\w*`, then longest `\s*`, then shortest body |
| `GeminiService.WordRunBound` | services/geminiService.ts:51 | any run of word characters at the start is no longer than the one the greedy `\w*` takes |
| `GeminiService.SpaceRunBound` | services/geminiService.ts:51 | any run of white space at the start is no longer than the one the greedy `\s*` takes |
| `GeminiService.ShortestBody` | services/geminiService.ts:51 | any body followed only by white space is at least as long as the one the lazy `.*?` takes |
| `GeminiService.StripFences` | services/geminiService.ts:50-55 | when the pattern matches with a non-empty group 2 the payload becomes exactly that group, and otherwise it is left unchanged; a trimmed payload stays trimmed |
| `GeminiService.ReplyText` | services/geminiService.ts:48 | the reply text is trimmed, and it is empty exactly when there is no text or the text is only white space |
| `GeminiService.Payload` | services/geminiService.ts:48-55 | the text handed to the parser never has white space at its ends |
| `GeminiService.FenceBodyTrimIsIdentity` | services/geminiService.ts:54 | the `trim` applied to the captured body never changes it |
| `GeminiService.StripUnfenced` | services/geminiService.ts:51-55 | a payload without the fence anchors reaches the parser unchanged |
| `GeminiService.EmptyReplyPayload` | services/geminiService.ts:48 | a missing reply, or one that is only white space, leaves the empty string as the payload |
| `GeminiService.UnfencedPayload` | services/geminiService.ts:48-57 | a reply whose trimmed text has no fence anchors is parsed as trimmed |
| `GeminiService.StripJsonBlock` | services/geminiService.ts:51-54 | round trip: a `json` fenced block around a trimmed non-empty body strips back to the body |
| `GeminiService.StripBareBlock` | services/geminiService.ts:51-54 | round trip without a language tag, for a trimmed non-empty body whose first character is not a word character |
| `GeminiService.EmptyFenceKept` | services/geminiService.ts:53 | a fence whose captured body is empty (as in a fenced `json` tag with nothing after it) is left in place |
| `GeminiService.Accepts` | services/geminiService.ts:60-68 | the shape check (`HasRequiredFields`, built on `Truthy` and `IsArray`) passes only an object that has all six checked keys and whose `detailedAnalysis` is an array of at least three entries |
| `GeminiService.MissingFieldRejected` | services/geminiService.ts:60-70 | an object missing any one of `title`, `summary`, `takeaways`, `quote`, `themeColor` or `detailedAnalysis` is rejected, with the incomplete-response error |
| `GeminiService.CheckRecord` | services/geminiService.ts:60-71 | the check throws nothing exactly when the value is accepted (`Accepts`); for `null` it throws the `TypeError` of reading `title`, and for any other rejected value the incomplete-response `Error` |
| `GeminiService.CardAcceptance` | services/geminiService.ts:60-68 | on a reply of the declared shape, accepted iff `title`, `summary`, `quote` and `themeColor` are non-empty and there are at least three analysis entries: `author` is never checked and empty `takeaways` pass |
| `GeminiService.AuthorIgnored` | services/geminiService.ts:60-68 | the verdict is the same whatever `author` holds, or when it is absent |
| `GeminiService.WrapError` | services/geminiService.ts:75-80 | every failure becomes an `Error` whose message is the fixed prefix followed by the original message, or the unknown-error text for a thrown non-`Error` |
| `GeminiService.WrapErrorInjective` | services/geminiService.ts:77-80 | two different thrown values never wrap to the same error: the original message can be recovered |
| `GeminiService.GenerateBookCard` | services/geminiService.ts:47-80 | success iff the model answered and the payload parses to an accepted value, which is returned unchanged; a call failure, a parse failure, a `null` value and a rejected value each give their own wrapped `Error` |
| `CardView.HexTriplesExactly` | components/GeneratedCard.tsx:19 | `([0-9A-F]{3})` repeated `count` times matches exactly `3 * count` hex digits |
| `CardView.ValidColorExactly` | components/GeneratedCard.tsx:19 | the colour test `IsValidColor` (via `HexTriples`) holds iff the length is 4 or 7, the first character is `#` and the rest are hex digits of either case |
| `CardView.BorderColor` | components/GeneratedCard.tsx:20-22 | the border is the theme colour when it passes the test, and otherwise exactly `#A855F7`; it is always a valid hex colour |
| `CardView.BorderColorExamples` | components/GeneratedCard.tsx:20-22 | `not-a-color` falls back to the accent, and `#4A90E2` and `#abc` are used as they are |
| `CardView.JsRemainder` | components/GeneratedCard.tsx:25 | JavaScript `%` with a positive divisor stays strictly between `-n` and `n`, and agrees with the Euclidean remainder on non-negative dividends |
| `CardView.NextPageIndex` | components/GeneratedCard.tsx:24-26 | from a page in `[0, n)` next stays in `[0, n)`: one page on, or 0 from the last page |
| `CardView.PrevPageIndex` | components/GeneratedCard.tsx:28-30 | from a page in `[0, n)` previous stays in `[0, n)`: one page back, or `n - 1` from page 0 |
| `CardView.NextPrevInverse` | components/GeneratedCard.tsx:24-30 | next then previous, and previous then next, return to the original page |
| `CardView.NextTimesWraps` | components/GeneratedCard.tsx:24-26 | pressing next `k <= n` times moves `k` pages on, wrapping past the last page |
| `CardView.FullCycle` | components/GeneratedCard.tsx:24-26 | pressing next once per page returns to the starting page |
| `CardView.ThreePageWrap` | components/GeneratedCard.tsx:24-30 | with three pages, previous from page 0 gives page 2, and next from page 2 gives page 0 |
| `CardView.AcceptedCardHasPages` | components/GeneratedCard.tsx:67 | a value the service accepted has at least three analysis pages, so `ShowsAnalysis` holds, the navigation is rendered and the modulus is never zero |
| `CardView.GeneratedCard.constructor` | components/GeneratedCard.tsx:15-16 | a new card starts on page 0 with the details hidden |
| `CardView.GeneratedCard.Border` | components/GeneratedCard.tsx:20-22 | the card's border is always a valid hex colour |
| `CardView.GeneratedCard.CurrentAnalysis` | components/GeneratedCard.tsx:85 | when the analysis section is rendered (`ShowsAnalysis`, line 67) the text on display is one of the card's analysis entries |
| `CardView.GeneratedCard.Indicator` | components/GeneratedCard.tsx:96 | the indicator shows `currentPage + 1` out of the page count, a number between 1 and the page count |
| `CardView.GeneratedCard.ToggleDetails` | components/GeneratedCard.tsx:70 | the toggle flips `detailsVisible` and leaves the page unchanged |
| `CardView.GeneratedCard.NextPage` | components/GeneratedCard.tsx:24-26 | the page becomes the next index, the page stays in range and the details flag is kept |
| `CardView.GeneratedCard.PrevPage` | components/GeneratedCard.tsx:28-30 | the page becomes the previous index, the page stays in range and the details flag is kept |
| `Controller.ServiceFailureText` | App.tsx:31 | the message shown for a thrown value (`ErrorText`) is, for every service failure, the service's own non-empty message, never the fallback text |
| `Controller.BlankExactly` | App.tsx:18 | the blank-title test `IsBlank` (`!bookTitle.trim()`) holds exactly when the title is only white space |
| `Controller.App.constructor` | App.tsx:12-15 | initial state: empty title, no card, not loading, no error; so the input form is shown (`FormVisible`, the test of App.tsx line 60) and neither the error panel (`ErrorVisible`, line 71) nor the card (`CardVisible`, line 73) |
| `Controller.App.SetBookTitle` | App.tsx:63 | typing changes the title only |
| `Controller.App.StartGenerate` | App.tsx:17-25 | a blank title (`IsBlank`) sets the validation message, starts nothing and sends nothing; any other title sets loading, clears the error and the card, and is sent unchanged; only the spinner (`SpinnerVisible`, App.tsx line 69) is shown then |
| `Controller.App.FinishGenerate` | App.tsx:27-34 | success stores the returned record and leaves the error as it is; failure stores `ErrorText` of the thrown value (its message, or the fallback text) and leaves the card as it is; loading ends either way |
| `Controller.App.HandleGenerate` | App.tsx:17-35 | the title is never changed, so a retry resubmits it; afterwards loading has ended and there is either an accepted card and no error (`CardVisible`, the form hidden), or a service error message and no card (`ErrorVisible` and `FormVisible`) |
| `Controller.App.HandleReset` | App.tsx:37-42 | title, card, error and loading are all reset at once; the form is shown again and the spinner, error panel and card are not |

## Left out

- The model call (services/geminiService.ts:8, 11-45) is left out: its prompt text, model name and generation settings. It is a call into a foreign SDK, so the model takes its outcome as the input `ModelResponse`.
- `JSON.parse` (services/geminiService.ts:57) is a general-purpose library parser. It is the parameter `parse`, which returns a value or a syntax error with its message.
- The API-key check at module load (services/geminiService.ts:4-6) is configuration plumbing, and `console.error` (line 76) is logging.
- The `async`/`await` scheduling is left out. Completion is a separate atomic step (`FinishGenerate`). The source does not guard against a response that arrives after a reset, and the model keeps that behaviour.
- All JSX, CSS classes, icons and aria attributes are left out, as are components/BookInput.tsx, components/LoadingSpinner.tsx and components/ErrorMessage.tsx. They only present data and forward `onSubmit`/`onRetry`.
- The regular-expression engine is not modelled in general. The two patterns are written as character-level predicates and functions.
- `CardView.BorderColor`: a `themeColor` that is not a string is always treated as invalid. JavaScript would first convert it to a string, so for example the array `["#abc"]` would pass the test.
- `CardView.AnalysisPages`: only an array counts as analysis pages. The component would also page through a string, or through an object with a numeric `length`. The shape check lets only arrays through, so neither case reaches the card.
- `GeminiService.CheckRecord`: the `TypeError` message for reading a property of `null` depends on the JavaScript engine. The model uses V8's wording.
- `Json.Member`: inherited properties and the special `__proto__` key are not modelled. None of the keys the card uses is an inherited property.
- Characters are Unicode scalar values, not UTF-16 code units, so a string holding a lone surrogate is not modelled. No character outside the Basic Multilingual Plane is white space, a word character or a hex digit, so no test in the model depends on the difference.
- A reply `text` that is not a string is not modelled, because the SDK types it as a string.
