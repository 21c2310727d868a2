# AI Business Logo Generator — a Dafny model of its core

The application asks a text model for business name ideas for an industry.
For each idea it asks an image model for a PNG logo and a text model for SVG markup.
It then shows one card per idea, with the logo and two download buttons.

This project models the logic around those calls:

- the cleaning of the SVG reply (`cleanSvgCode`);
- the per-idea loop of `generateBusinessIdeas`, where a failed idea becomes a placeholder;
- the download file names and guards of a result card;
- the form's submit guard and disabled button;
- the page's state transitions and render conditions.

The model calls no generative model. The settled outcome of each call is an input instead:

- the idea request's outcome: a thrown value, a missing `ideas` list, or the list;
- one `LogoOutcome` per idea.

Modules:

- `Wrappers`: `Option` and `Result`.
- `Types`: the records of `types.ts`, plus `Thrown`, a value a promise rejects with.
- `Text`: the JavaScript string built-ins the code relies on.
  - The ECMAScript whitespace set, used by both `\s` and `trim`.
  - `trim`.
  - The first-occurrence search that a non-global regular expression performs.
- `GeminiService`: `cleanSvgCode` and `generateBusinessIdeas`.
- `LogoCard`: the card's pure logic.
- `GeneratorForm` and `App`: classes whose fields are the components' `useState` variables.

Two behaviours of the code worth stating outright:

- **The fence fallback.** When the reply holds no `<svg`…`</svg>` pair, the code removes the first "```svg" (and at most one line feed after it) wherever it occurs, then the first remaining "```" wherever it occurs, then trims. It does not look for a leading or a trailing fence.
- **Empty payloads.** An empty payload is not a failure. An idea with no image and a blank SVG reply keeps its own description and gets two empty payloads, not the failure placeholder (`EmptyPayloadIsNotFailure`).

## Model

| member | source | states |
|---|---|---|
| Text.Trim | services/geminiService.ts:43 | The result is the input minus whitespace-only prefix and suffix. It is empty or starts and ends with a non-whitespace character. |
| Text.TrimEmptyIff | components/GeneratorForm.tsx:17 | `trim()` yields the empty string exactly when every character is whitespace. |
| Text.TrimIdempotent | services/geminiService.ts:43 | Trimming a trimmed string changes nothing. |
| Text.IndexOfFrom | services/geminiService.ts:38 | Returns the first occurrence at or after the start position, or `None` when there is none from there on. |
| Text.ReplaceFirst | services/geminiService.ts:43 | Replaces only the leftmost occurrence of the pattern. A string without the pattern is returned unchanged. |
| GeminiService.SvgMatch | services/geminiService.ts:38 | Reports the leftmost `<svg` that has a `</svg>` after it, with the nearest such `</svg>` (lazy quantifier). `None` exactly when no opening/closing pair exists. |
| GeminiService.StripSvgFence | services/geminiService.ts:43 | Removes the first "```svg" and the line feed right after it, if any. Everything else is kept in order. |
| GeminiService.CleanSvgCode | services/geminiService.ts:37-44 | With a match, returns the reported match verbatim. Without one, the fallback result has no surrounding whitespace. |
| GeminiService.ReportedShape | services/geminiService.ts:38-40 | The reported match starts with `<svg`, ends with `</svg>`, and holds no other `</svg>`. |
| GeminiService.MatchShape | services/geminiService.ts:37-41 | The same shape facts, stated for `cleanSvgCode`'s result whenever the reply holds a match. |
| GeminiService.MatchIdempotent | services/geminiService.ts:37-41 | Cleaning extracted markup again returns it unchanged. |
| GeminiService.FirstImageBytes | services/geminiService.ts:92 | The first image's bytes, or `''` when there is no image or it has no bytes. |
| GeminiService.ResultFor | services/geminiService.ts:74-109 | A success carries the idea's name and description, the first image's bytes and the cleaned SVG. A rejection or a missing SVG text gives the fixed failure placeholder. The name is always the idea's. |
| GeminiService.MapPairsAt | services/geminiService.ts:69-110 | Entry `i` of a list built by pushing `f` of each pair in order is `f` of pair `i`. |
| GeminiService.AggregateAt | services/geminiService.ts:68-113 | Entry `i` of the loop's list is the record for idea `i` and its own outcome. |
| GeminiService.GenerateBusinessIdeas | services/geminiService.ts:47-114 | A rejected idea request propagates unchanged. A missing or empty `ideas` list rejects with the "no names" error. Otherwise the loop returns one record per idea, in order. |
| GeminiService.AggregateNames | services/geminiService.ts:69-110 | A successful batch has one entry per idea, and entry `i` bears idea `i`'s name. |
| GeminiService.FailureIsolated | services/geminiService.ts:101-109 | Changing one idea's outcome changes only that idea's entry. A failure never affects other cards or the length. |
| GeminiService.EmptyPayloadIsNotFailure | services/geminiService.ts:92-100 | No image plus a blank SVG reply yields empty payloads with the idea's own description, not the placeholder. |
| LogoCard.DownloadStem | components/LogoCard.tsx:19 | `name.replace(/\s+/g, '_')`: no whitespace is left, the visible characters are the name's own in order, and it is never longer. |
| LogoCard.StemIsCollapse | components/LogoCard.tsx:19 | The run-by-run replacement equals a per-character reference: a whitespace run becomes one `_`. |
| LogoCard.ThreeWords | components/LogoCard.tsx:19 | Three words separated by whitespace runs of any length are joined by single underscores. |
| LogoCard.FileName | components/LogoCard.tsx:19-24 | The download name has no whitespace. Its visible characters are those of the name followed by `logo.png` or `logo.svg`. |
| LogoCard.SameStem | components/LogoCard.tsx:19-24 | The PNG and SVG file names have the same length and differ only in the three-letter extension. |
| LogoCard.HandleDownload | components/LogoCard.tsx:13-25 | Nothing is clicked exactly when the chosen payload is empty. Otherwise the link points at a base64 data URL or an SVG blob and carries the file name. |
| LogoCard.DisabledIffNoDownload | components/LogoCard.tsx:54-62 | A button is disabled exactly when its download would do nothing. Each button depends only on its own payload. |
| LogoCard.Image | components/LogoCard.tsx:43-47 | The image is shown exactly when the PNG payload is non-empty, with the data URL and the alt text `<name> Logo`. |
| LogoCard.ImageShownIffPngDownload | components/LogoCard.tsx:43-54 | The image is shown exactly when the PNG download is enabled, and both use the same data URL. |
| GeneratorForm.GeneratorForm.constructor | components/GeneratorForm.tsx:12-13 | Both fields start empty. |
| GeneratorForm.GeneratorForm.SetIndustry | components/GeneratorForm.tsx:32 | Sets the industry and leaves the preferences unchanged. |
| GeneratorForm.GeneratorForm.SetPreferences | components/GeneratorForm.tsx:46 | Sets the preferences and leaves the industry unchanged. |
| GeneratorForm.GeneratorForm.HandleSubmit | components/GeneratorForm.tsx:15-20 | Submits the untrimmed fields exactly when the industry has a non-whitespace character and nothing is loading. This is exactly when the submit button is enabled (line 53). |
| App.ErrorMessage | App.tsx:24 | An `Error`'s own message, or the fixed non-empty text for any other thrown value. |
| App.App.constructor | App.tsx:11-13 | No results, not loading, no error. |
| App.App.Start | App.tsx:16-18 | Loading with error and results cleared: only the spinner renders. |
| App.App.Settle | App.tsx:19-27 | Records the data on success, the message on failure, and ends loading. |
| App.App.HandleGenerate | App.tsx:15-28 | The settled state follows the service's outcome. Afterwards nothing loads, and exactly one of "the results are non-empty" and "an error is recorded" holds, so the grid or the corrected banner renders. The banner as written can still be hidden (see Findings). |
| App.EmptyMessageShowsNothing | App.tsx:50 | Under the banner condition as written, an `Error` with an empty message leaves no spinner, no banner and no grid. |

## Left out

- The API-key check at module load, the prompts, the model names and the request configurations. These are constants passed to calls the model does not make.
- The network calls. Their settled outcomes are inputs: a `Result` for the idea request and one `LogoOutcome` per idea, given in idea order.
- `JSON.parse` and the response schema. A parse failure is one of the `Thrown` values the idea request can reject with. An `ideas` value that is present but not an array is not modelled.
- `Promise.all` runs an idea's two requests concurrently. Only their joint outcome matters to the code, so the model has no concurrency.
- A missing `image` field inside a generated image, or a missing `generatedImages` list, throws a `TypeError` inside the `try`. The model folds these into `Rejected`, which has the same effect (the placeholder).
- `console.error` logging, `e.preventDefault()`, and the DOM work of a download (creating, clicking and removing the link; the Blob and the object URL). A download is modelled as the link it would click.
- React rendering: markup, styles, icons, `useCallback`, and `ResultsGrid`, which only maps results to cards. The render conditions are predicates over the state.
- Overlapping calls of `handleGenerate`. The submit guard prevents them only while `isLoading` is true. The model's handler runs start to settlement in one step.
- The form's `isLoading` property, passed in by the page, is a parameter of the submit handler. Calling `onGenerate` is modelled as returning the request.

## Findings

| source | as written | input that shows it | evidently intended | confidence | as-written member | corrected member |
|---|---|---|---|---|---|---|
| App.tsx:50 | The banner renders only when the stored message is truthy, i.e. non-empty. | The service rejects with an `Error` whose message is empty, e.g. `new Error()` from a lower layer. The handler stores `""`, so there are no results, no spinner and no banner, and the page silently shows nothing. | Every recorded failure shows the banner, so a settled run always shows either results or an error. | low; not executed | App.App.ShowsErrorBannerAsWritten, App.EmptyMessageShowsNothing | App.App.ShowsErrorBanner, App.App.HandleGenerate |
