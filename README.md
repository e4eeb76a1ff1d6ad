# Food photo studio: service helpers and view state machines

This project models the logic of a small web app that generates food
photographs from a dish name and edits uploaded photographs from a text
instruction, both through a hosted image API. Three pieces are modelled:

- **`GeminiService`** (`gemini_service.dfy`). This holds the service helpers:
  - the decoding of a FileReader data URL into `{ mimeType, data, dataUrl }`,
    including the lazy regular expression `/:(.*?);/` and its
    `application/octet-stream` fallback;
  - the three style fragments and the prompt template;
  - the two request shapes;
  - the two result extractors that turn a response into a renderable
    `data:<mime>;base64,<bytes>` string or an error.

  The `for…of` scan of `editImage` is a method with a loop, proved equal to
  the function `EditResult`. Everything else in this module is pure.
- **`EditorView.ImageEditor`** (`image_editor.dfy`). This class has the
  editor view's five state fields. `handleFileChange` and `handleEdit` are
  each split at their single `await`:
  - a start method (`SelectFile`, `HandleEdit`);
  - a completion method that takes how the awaited call settled
    (`CompleteFileRead`, `CompleteEdit`).

  `ClickApply` is the Apply Edit button with its disabled condition.
- **`GeneratorView.ImageGenerator`** (`image_generator.dfy`). This class
  works the same way for the generator view:
  - `handleGenerate` is split into `HandleGenerate` and `CompleteGenerate`;
  - `ClickGenerate` is the button;
  - `SetDishName` and `SetStyle` are the input and style setters;
  - `Display` gives the result area's conditions.

Each class has a ghost counter `pending`. In the editor it counts edit calls
issued and not yet settled (file reads are not counted). In the generator it
counts generation calls. Its invariant `Valid()` says at most one such call is in flight,
exactly while `isLoading`. The click methods keep `Valid()`. The raw
handlers do not need it.

The network, FileReader and the API client are not modelled. A data URL, a
response or a settlement (`CallOutcome`: `Resolved(url)` or `Rejected`) is
an input. `wrappers.dfy` holds `Option` and `Result`.

## Model

| member | source | states |
|---|---|---|
| GeminiService.IndexOf | services/geminiService.ts:11-12 | the position of the first occurrence of a character, with no occurrence before it; the length when there is none |
| GeminiService.Split | services/geminiService.ts:11 | `split(',')`: at least one piece, no piece holds the separator, joining the pieces gives back the input, the first piece is the text before the first separator, and there is one piece exactly when the separator is absent |
| GeminiService.SemicolonFrom | services/geminiService.ts:12 | the lazy `(.*?);` from a position: the `;` it stops at closes a match (no `;` and no line terminator before it), and when it gives up no `;` can close one |
| GeminiService.FindMatch | services/geminiService.ts:12 | the regex search: the match found is a match and none starts earlier; when none is found, no position matches |
| GeminiService.MimeTypeOf | services/geminiService.ts:12 | never empty; `application/octet-stream` when nothing matches; otherwise the capture of the leftmost match, or the fallback when that capture is empty |
| GeminiService.FirstColonMatches | services/geminiService.ts:12 | in a header without line terminators, the first `:` and the first `;` after it form the leftmost match |
| GeminiService.NoSemicolonAfterColon | services/geminiService.ts:12 | with no `;` after the first `:`, nothing matches |
| GeminiService.MimeTypeFirstColonNextSemicolon | services/geminiService.ts:12 | in a header without line terminators, the MIME type is the text between the first `:` and the next `;`, and `application/octet-stream` when either is missing or that text is empty |
| GeminiService.ParseDataUrl | services/geminiService.ts:10-13 | `dataUrl` unchanged; the MIME type is taken from the text before the first comma; `data` is absent exactly when there is no comma, and otherwise is the text between the first and second commas, so anything after a second comma is dropped |
| GeminiService.DataUrl | services/geminiService.ts:48 | the `data:<mime>;base64,<bytes>` string built at lines 48 and 79; its partner `ParseDataUrlRoundTrip` proves the parser recovers the MIME type and the bytes from it |
| GeminiService.ParseDataUrlRoundTrip | services/geminiService.ts:11-12 | parsing `data:<m>;base64,<d>` (the form built at lines 48 and 79) gives back `m` and `d` (up to its first comma) whenever `m` is non-empty and has no `;`, `,` or line terminator; it gives back exactly `d` when `d` has no comma |
| GeminiService.StylePrompt | services/geminiService.ts:19-26 | getStylePrompt: one fixed fragment per style, copied verbatim from the source; its partner `StyleFragmentsSuffixFree` proves the three fragments are pairwise distinct and that none ends another |
| GeminiService.EndMark | services/geminiService.ts:19-26 | a proof helper, not a source function: each style's fragment has its own third-last character |
| GeminiService.StyleFragmentsSuffixFree | services/geminiService.ts:19-26 | for distinct styles, neither fragment ends the other, so the three fragments are pairwise distinct |
| GeminiService.FullPrompt | services/geminiService.ts:34 | the `fullPrompt` template: opening text, the dish name, `". `, then the style's fragment; its partners `ParsePromptRoundTrip` and `PromptQuotesDishAndFragment` prove the dish name and the style are recovered from it and where each lies |
| GeminiService.DishBefore | services/geminiService.ts:34 | finds the text in front of a given tail exactly when the string ends with that tail, and the text plus the tail is the string |
| GeminiService.OtherTailAbsent | services/geminiService.ts:34 | after a dish name and one style's tail, no other style's tail ends the text |
| GeminiService.ParsePrompt | services/geminiService.ts:34 | whatever it reads back rebuilds the same prompt with the template |
| GeminiService.ParsePromptRoundTrip | services/geminiService.ts:34 | the dish name and the style can be read back from any full prompt |
| GeminiService.PromptQuotesDishAndFragment | services/geminiService.ts:19-34 | the prompt starts with the fixed opening, quotes the dish name verbatim right after it, and ends with the selected style's fragment and with no other style's fragment |
| GeminiService.FullPromptInjective | services/geminiService.ts:34 | distinct (dish name, style) pairs give distinct prompts |
| GeminiService.DishNameMayQuoteAnotherFragment | services/geminiService.ts:34 | a prompt can contain another style's fragment: a dish name may quote it |
| GeminiService.GenerationRequest | services/geminiService.ts:34-43 | exactly one image, `image/jpeg`, aspect ratio `4:3`, for the full prompt |
| GeminiService.GenerationRequestCarriesInputs | services/geminiService.ts:34-43 | the request's prompt reads back to the dish name and the style it was built from |
| GeminiService.GenerationResult | services/geminiService.ts:46-50 | an error exactly when the image list is absent or empty, and that error is the generation failure; otherwise the result is `data:image/jpeg;base64,` followed by the first image's bytes, which parses back as `image/jpeg`, and with exactly those bytes when they hold no comma |
| GeminiService.OutcomeOf | services/geminiService.ts:46-50 | a result settles the call as resolved with the same URL exactly when it is a success |
| GeminiService.EditRequestFor | services/geminiService.ts:58-73 | two parts, the image with its data and MIME type first and then the instruction text; image output is requested |
| GeminiService.FirstInlinePart | services/geminiService.ts:76-77 | the first part, in order, that carries inline data: no part before it does |
| GeminiService.EditResult | services/geminiService.ts:76-83 | with no candidate the read fails; with a candidate, the edit succeeds exactly when some part of the first candidate carries image data and fails with the edit error exactly when none does; on success the result is the data URL of the first such part, built with that part's own MIME type |
| GeminiService.ExtractEditedImage | services/geminiService.ts:76-83 | the loop with its early return computes `EditResult` |
| GeminiService.EditResultRoundTrip | services/geminiService.ts:76-79 | parsing the edited image's data URL gives back the chosen part's MIME type and bytes, when that MIME type is non-empty and has no `;`, `,` or line terminator and the bytes hold no comma |
| EditorView.EditGuard | components/ImageEditor.tsx:35-42 | the two guards of handleEdit in source order: no image gives the upload message even when the instruction is also empty; an image with no instruction gives the instruction message; neither fires exactly when both are present |
| EditorView.ApplyEnabled | components/ImageEditor.tsx:104 | the Apply button's enable condition; its partner `ApplyEnabledPassesGuards` proves it equals "not loading and both guards pass", and `ImageEditor.ClickApply` proves a click sends a request exactly when it holds |
| EditorView.ApplyEnabledPassesGuards | components/ImageEditor.tsx:104 | the Apply button is enabled exactly when not loading and both guards of handleEdit pass |
| EditorView.ImageEditor.constructor | components/ImageEditor.tsx:13-17 | no image, no edited image, an empty instruction, not loading and no error |
| EditorView.ImageEditor.EnterPrompt | components/ImageEditor.tsx:94-101 | the instruction changes only while an image is present, because the input is disabled otherwise; nothing else changes |
| EditorView.ImageEditor.SelectFile | components/ImageEditor.tsx:19-24 | with a file, error and edited image are cleared and decoding starts; with no file, nothing changes |
| EditorView.ImageEditor.CompleteFileRead | components/ImageEditor.tsx:25-30 | a decoded file replaces the original image as a whole; a failed read keeps it and sets the fixed message; nothing else changes |
| EditorView.ImageEditor.HandleEdit | components/ImageEditor.tsx:34-49 | no image: the upload message, checked first; no instruction: the instruction message; either guard changes only `error` and sends nothing; otherwise loading starts, error and edited image are cleared, and the request carries the image's data, MIME type and the instruction |
| EditorView.ImageEditor.ClickApply | components/ImageEditor.tsx:102-104 | a request is sent exactly when the button is enabled; a disabled button changes nothing; at most one edit is in flight |
| EditorView.ImageEditor.CompleteEdit | components/ImageEditor.tsx:49-56 | success shows the result, failure sets the fixed message with no edited image, and loading ends either way |
| EditorView.ChooseFile | components/ImageEditor.tsx:19-26 | a successful file choice leaves exactly the new payload as the original image, with no edited image and no error |
| EditorView.ApplyEdit | components/ImageEditor.tsx:34-56 | an edit from an enabled button ends not loading, showing the extracted image with no error, or the fixed message with no image |
| GeneratorView.GenerateEnabled | components/ImageGenerator.tsx:75 | the Generate button's enable condition, `!isLoading`; its partner `ImageGenerator.ClickGenerate` proves a disabled click changes nothing and keeps at most one request in flight |
| GeneratorView.ResultAreaOf | components/ImageGenerator.tsx:85-99 | the spinner exactly while loading; the error text exactly when not loading with a non-empty error; the placeholder exactly when not loading with no error and no image; the image exactly when there is one; something always renders, the placeholder renders alone, and the error text never beside the spinner |
| GeneratorView.ImageGenerator.constructor | components/ImageGenerator.tsx:8-12 | an empty dish name, the bright-modern style, no image, not loading and no error |
| GeneratorView.ImageGenerator.SetDishName | components/ImageGenerator.tsx:46 | only the dish name changes |
| GeneratorView.ImageGenerator.SetStyle | components/ImageGenerator.tsx:60 | only the style changes, and no request is sent |
| GeneratorView.ImageGenerator.HandleGenerate | components/ImageGenerator.tsx:14-23 | an empty dish name sets the fixed message and changes nothing else, so an earlier image stays; otherwise loading starts, error and image are cleared, and the request is built from the current dish name and style |
| GeneratorView.ImageGenerator.ClickGenerate | components/ImageGenerator.tsx:73-75 | the button does nothing while loading, so at most one request is in flight; otherwise it behaves as the handler |
| GeneratorView.ImageGenerator.CompleteGenerate | components/ImageGenerator.tsx:22-30 | success shows the image with no error, failure sets the fixed message with no image, and loading ends either way |
| GeneratorView.ImageGenerator.Display | components/ImageGenerator.tsx:85-99 | while loading, the spinner shows alone |
| GeneratorView.Generate | components/ImageGenerator.tsx:14-30 | a generation from the button keeps the inputs and ends not loading, showing the first image's data URL or the fixed message |

## Left out

- JSX markup, CSS classes, the spinner and icons are presentation. Only the enable and display conditions are modelled.
- The editor's two image panes (components/ImageEditor.tsx:64-83) are presentation.
- App.tsx is not part of this model. It is a tab switcher with no logic of its own.
- FileReader, the API client, the API key and the model names are foreign I/O. A data URL, a response or a call's settlement is an input instead.
- `console.error` logging is diagnostics only.
- Overlapping asynchronous completions are not modelled. Nothing orders or cancels them. `Valid()` holds under the click methods, which allow one call in flight. The raw handlers and completions do not require it.
- `types.ts` is not part of this model, so `ImageStyle` is a closed three-value datatype. The `default` branch of `getStylePrompt` (services/geminiService.ts:27-28) therefore cannot be reached and is not modelled.
- Optional response fields are present in the model, except `generatedImages`, which is an `Option`. An empty `candidates` list is the `NoCandidate` error. In JavaScript, the cases below behave differently, and none of them is modelled:
  - An absent `candidates` list, an absent `content` or `parts` of the first candidate, or an absent `image` of the first generated image makes the call throw a TypeError. Either way the view shows its fixed failure message.
  - An absent `imageBytes` (services/geminiService.ts:47) does not throw. It is interpolated as the text `undefined`, and the call returns normally.
  - An absent `inlineData.data` or `inlineData.mimeType` (services/geminiService.ts:79) does not throw either. It is interpolated as the text `undefined`, and the call returns normally.
- The messages of the errors the service throws (services/geminiService.ts:50,83) are not modelled. The views show their own fixed text whatever the error, so only which error occurs matters. `NoCandidate` carries no message; in JavaScript it is a runtime TypeError.
- GeminiService.PromptQuotesDishAndFragment: "the prompt holds no other style's fragment" is proved only for the fragment the template appends, not for the whole prompt. A dish name can quote another style's fragment (see `DishNameMayQuoteAnotherFragment`).
- GeminiService.ParseDataUrlRoundTrip: besides no `;` or `,`, the MIME type must also have no line terminator. The code's `.` does not match `\n`, `\r`, U+2028 or U+2029, so such a MIME type does not survive the regular expression. The model follows the code here.
- GeminiService.MimeTypeFirstColonNextSemicolon: the "first `:` to next `;`" reading is proved for headers without line terminators. `MimeTypeOf` itself follows the regular expression on every header.
