# Text-to-Animation core, modelled in Dafny

Text-to-Animation turns a prompt into a self-contained HTML/JS animation
page and can render that page to a GIF. This project models the parts of it
that decide what happens, and proves properties about them:

- **Virtual clock.** The time hijacker is injected into the page before the
  page's own scripts run. It replaces `Date`, `performance.now`,
  `requestAnimationFrame` and `cancelAnimationFrame`, and `advanceTime` is
  the only way virtual time moves. This is the class `VirtualClock.Clock`
  over a registry of frame callbacks.
- **Capture worker.** The standalone worker does two things, both in
  `FrameCapture`:
  - It probes for the hijacker and re-injects it once if missing.
  - Its frame loop advances the clock by `1000/fps` before every frame
    but the first. It then hands the GIF writer the frames, a delay of
    `int(1000/fps)` ms, loop 0 and disposal 2.
- **Worker command line.** The command line built in `gif_service.py` and
  the worker's `argparse` parser (`CliArgs`). It is proved that parsing
  the built command gives back the service's values.
- **GIF service.** The service writes the HTML to a temporary file, runs
  the worker, decides success and cleans up (`GifService`). The file
  system is a class holding a map.
- **Groq cleaning and validation.** Cleaning the model's response (fences,
  document start, closing tag, the fallback page) and the structure check
  it must pass (`GroqHtml`). The Python regular expressions are spelled
  out as positional predicates (`HtmlPatterns`).
- **Gemini cleaning.** Gemini cleans the same kind of response with the
  same steps in another order, and wraps its errors (`GeminiHtml`). Lemmas
  show where the two cleanings agree and where they differ.
- **Example selection.** Choosing the reference animations that go in
  front of the model for a prompt (`AnimationExamples`). The method
  `GetRelevantExamples` is proved against the specification functions
  `Selection` and `Blocks`.
- **Prompt box.** The most-recently-used prompt history, the submit guard,
  Ctrl/Cmd+Enter, and the shortened history labels. This is the class
  `InputPanel.Panel` with the pure function `NewHistory`.

Where the code and the written description of the system disagree, the model
follows the code:
- When the hijacker is missing after the load and re-injection does not
  install it, the worker does not fall back to real-time frames for the
  whole GIF. The first `window.advanceTime(...)` call throws, so any run
  with two or more frames exits with status 1.
- The service treats a run as successful when the return code is 0 and
  the output file exists. `os.path.getsize` fails only for a missing file,
  so an empty GIF file still counts as success.
- The GIF frame delay is `int(1000.0 / fps)`, truncated: 33 ms at 30 fps.
- The Gemini pipeline never runs the Groq structure check.
- Only the `try:` block of the service is covered by its `finally`. If writing the HTML or making the GIF path fails, the input file stays on disk.
- Re-injecting the hijacker on a page where it already ran does restore `advanceTime`. But `window.__originalDate` then becomes the first run's `HijackedDate`, which forwards to itself, so every `new Date(...)` on the page overflows the stack.

## Model

| member | source | states |
|---|---|---|
| Text.Lower | backend/services/animation_examples.py:843 | same length; every character is folded to lower case one by one (A–Z only) |
| Text.Strip | backend/services/groq_service.py:164 | the result neither starts nor ends with a character that `str.isspace` accepts |
| Text.TrimWith | backend/services/groq_service.py:183 | the result is the slice of the input between its leading and trailing whitespace runs; empty only when the input is all whitespace |
| Text.TrimWithIdempotent | backend/services/groq_service.py:183 | stripping twice is stripping once |
| Text.JsTrim | frontend/src/components/InputPanel.jsx:30 | `trim()` leaves no JavaScript whitespace at either end |
| Text.Split | backend/services/animation_examples.py:844 | `split()` yields non-empty words without whitespace, and no words exactly when the text is all whitespace |
| Text.SplitKeepsCharacters | backend/services/animation_examples.py:844 | the words, run together, are exactly the text's non-whitespace characters in order |
| Text.FindFrom | backend/services/animation_examples.py:874 | the first occurrence at or after a position, or none at all |
| Text.ContainsIff | backend/services/animation_examples.py:874 | `kw in s` holds exactly when the keyword occurs at some position |
| VirtualClock.Register | backend/scripts/generate_gif_standalone.py:34-38 | appends one uncancelled entry whose id is the old registry length; ids stay equal to positions |
| VirtualClock.CancelIn | backend/scripts/generate_gif_standalone.py:40-43 | flags the first entry with that id and nothing else; an unknown id changes nothing |
| VirtualClock.Invocations | backend/scripts/generate_gif_standalone.py:50-52 | one call per batch callback, in batch order, each given the new time |
| VirtualClock.PendingAround | backend/scripts/generate_gif_standalone.py:48 | an entry puts its callback into the next batch, at its own place, exactly when it is not cancelled |
| VirtualClock.CancelRemovesFromBatch | backend/scripts/generate_gif_standalone.py:40-48 | cancelling id k takes exactly entry k's callback out of the next batch |
| VirtualClock.RequestThenCancel | backend/scripts/generate_gif_standalone.py:34-43 | cancelling the id just returned leaves the next batch as it was |
| VirtualClock.RunBatchNumbersFromZero | backend/scripts/generate_gif_standalone.py:35-49 | what one advance's callbacks register is numbered from 0 again |
| VirtualClock.PerformKeepsIds | backend/scripts/generate_gif_standalone.py:34-43 | requests and cancels keep every id equal to its position |
| VirtualClock.RegisteredDuringAdvanceWaits | backend/scripts/generate_gif_standalone.py:48-50 | a callback registered during an advance is not in that batch; it waits with id 0 |
| VirtualClock.CancelDuringAdvanceTooLate | backend/scripts/generate_gif_standalone.py:41-50 | cancelling a batch member from inside the batch finds an empty registry and does not stop it |
| VirtualClock.Clock.constructor | backend/scripts/generate_gif_standalone.py:13-14 | virtual time 0 and no pending callbacks |
| VirtualClock.Clock.Reinject | backend/scripts/generate_gif_standalone.py:13-28 | running the script again resets time and registry, and leaves `Date` wrapping the previous `HijackedDate`, so `new Date` recurses |
| VirtualClock.Clock.DateNow | backend/scripts/generate_gif_standalone.py:24-26 | `Date.now()` is `performance.now()` plus 1700000000000 |
| VirtualClock.Clock.NewDate | backend/scripts/generate_gif_standalone.py:15-23 | only the zero-argument form reads the virtual clock and with arguments the original `Date` is used; after a second run of the script every form overflows the stack |
| VirtualClock.DateAfterReinjection | backend/scripts/generate_gif_standalone.py:15-23 | on a page that fails the probe after the first run, `new Date` works before the re-injection and overflows the stack after it |
| VirtualClock.Clock.RequestAnimationFrame | backend/scripts/generate_gif_standalone.py:34-38 | returns the old length as id, appends the entry, calls nothing, leaves time alone |
| VirtualClock.Clock.CancelAnimationFrame | backend/scripts/generate_gif_standalone.py:40-43 | the registry becomes `CancelIn` of the old one; time and calls unchanged |
| VirtualClock.Clock.Run | backend/scripts/generate_gif_standalone.py:51 | a callback's registry operations are applied in order |
| VirtualClock.Clock.AdvanceTime | backend/scripts/generate_gif_standalone.py:46-53 | time grows by exactly `ms`; every uncancelled callback is called once, in order, with the new time, whether or not it throws; what they register forms the next registry |
| VirtualClock.RegisteredDuringAdvanceRunsNext | backend/scripts/generate_gif_standalone.py:46-53 | a callback registered by a callback runs at the next advance, at that advance's time |
| CliArgs.IntToString | backend/services/gif_service.py:35-38 | `str(n)`: digits, with a leading '-' exactly for negative n |
| CliArgs.ParseIntOfIntToString | backend/scripts/generate_gif_standalone.py:133-136 | `int(str(n)) == n` for every integer |
| CliArgs.ParseIntUnpadded | backend/scripts/generate_gif_standalone.py:133-136 | without surrounding whitespace `int()` reads just a sign and digits |
| CliArgs.IntToStringIsValueToken | backend/services/gif_service.py:35-38 | `str(n)`, negative or not, is read by argparse as a value, not an option |
| CliArgs.BuildCommand | backend/services/gif_service.py:30-39 | 14 tokens: interpreter, script, then each option followed by its value |
| CliArgs.IndexOfOption | backend/scripts/generate_gif_standalone.py:131-136 | a token is one of the six declared options or none of them |
| CliArgs.ParseStepOption | backend/scripts/generate_gif_standalone.py:131-138 | an option followed by a value token is consumed and stored |
| CliArgs.ParseStepInt | backend/scripts/generate_gif_standalone.py:133-138 | an integer option followed by `str(n)` stores n |
| CliArgs.ParseBuildCommand | backend/services/gif_service.py:30-39 | parsing the built command yields exactly the paths and integers it was built from |
| CliArgs.ParseBuildCommandIff | backend/services/gif_service.py:33-34 | that round trip holds exactly when both paths read as values; otherwise the first offending option is reported |
| CliArgs.ParseDefaults | backend/scripts/generate_gif_standalone.py:133-136 | omitted options default to 600, 400, 3 and 30 |
| FrameCapture.Trunc | backend/scripts/generate_gif_standalone.py:118 | `int()` truncates toward zero |
| FrameCapture.GifDelayIsQuotient | backend/scripts/generate_gif_standalone.py:95-118 | for positive fps the delay is the integer quotient 1000 div fps |
| FrameCapture.GifDelayAt30Fps | backend/scripts/generate_gif_standalone.py:118 | at the default 30 fps the delay is 33 ms |
| FrameCapture.DelayBand | backend/scripts/generate_gif_standalone.py:95-118 | the delay is the frame interval rounded down to a whole millisecond |
| FrameCapture.PlaybackDrift | backend/scripts/generate_gif_standalone.py:95-118 | after i frames the GIF is behind the virtual clock by at least 0 and less than i ms |
| FrameCapture.FrameTimeIsLinear | backend/scripts/generate_gif_standalone.py:98-100 | frame k is taken at start + k × interval |
| FrameCapture.Shots | backend/scripts/generate_gif_standalone.py:98-106 | n screenshots, the k-th rendered at frame k's virtual time |
| FrameCapture.CaptureFrames | backend/scripts/generate_gif_standalone.py:98-106 | exactly `total` frames in index order, or failure at the first advance when the hijacker is missing and there are 2 or more frames |
| FrameCapture.GenerateGif | backend/scripts/generate_gif_standalone.py:85-122 | fps 0 fails by division; no frames fails; otherwise duration×fps frames, delay `int(1000/fps)`, loop 0, disposal 2; a re-injection leaves `new Date` recursing |
| FrameCapture.RunStandalone | backend/scripts/generate_gif_standalone.py:125-140 | help exits 0, a parse error exits 2, a capture error or a failing step outside the model (input file, browser, Pillow) exits 1, and only otherwise the GIF is written to `--output` with status 0 |
| GifService.Outcome | backend/services/gif_service.py:51-57 | success iff return code 0 and the output exists; a non-zero code fails with the prefixed stderr |
| GifService.WorkerReadsServiceArgs | backend/services/gif_service.py:30-39 | the worker parses back exactly the values the service passed |
| GifService.ServiceDefaultsMatchWorker | backend/services/gif_service.py:11 | the service's defaults are the worker's defaults |
| GifService.FileSystem.RemoveIfExists | backend/services/gif_service.py:67-69 | removes that path if present, nothing else |
| GifService.GenerateGifFromHtml | backend/services/gif_service.py:11-69 | a failure before `try:` is an error and leaves the input file behind when it was already made; once both temporary files exist, the worker sees the full HTML and the built command, the result is `Outcome`, the input file is removed, and the GIF is kept on success and removed on failure |
| GifService.RunWorker | backend/services/gif_service.py:28-69 | the `try:` block with its `except` and `finally`: the result is `Outcome`, the input file is removed in every case, and the GIF only on failure |
| HtmlPatterns.FirstFrom | backend/services/groq_service.py:171-172 | `re.search`: the first match position at or after `from`, none before it |
| HtmlPatterns.SpaceRunEnd | backend/services/groq_service.py:179 | the end of the greedy `\s*` run |
| HtmlPatterns.HtmlCloseEnd | backend/services/groq_service.py:179-181 | the end of a `</html\s*>` match, just after its '>' |
| HtmlPatterns.OpenFenceEnd | backend/services/groq_service.py:167 | the end of a `` ```(?:html)?\s*\n? `` match |
| HtmlPatterns.LastLineEnd | backend/services/groq_service.py:168 | the last position in a range where MULTILINE `$` holds |
| HtmlPatterns.CloseFenceLineEnd | backend/services/groq_service.py:168 | where a MULTILINE `` \n?```\s*$ `` match ends: at a line end |
| HtmlPatterns.DropOpenFenceLines | backend/services/groq_service.py:167 | with no match the text is unchanged; it never grows |
| HtmlPatterns.DropCloseFenceLines | backend/services/groq_service.py:168 | with no match the text is unchanged; it never grows |
| HtmlPatterns.DropOpenFence | backend/services/gemini_service.py:108 | only a fence at the very start is removed |
| HtmlPatterns.DropCloseFence | backend/services/gemini_service.py:109 | everything from the first closing fence followed only by whitespace is removed |
| HtmlPatterns.CutAfterHtmlClose | backend/services/groq_service.py:179-181 | cut just after the first `</html\s*>`, or unchanged |
| GroqHtml.FirstMissing | backend/services/groq_service.py:134-136 | the first required element, in list order, that is absent |
| GroqHtml.ValidateHtmlStructure | backend/services/groq_service.py:113-156 | valid iff the message is empty, iff non-blank, all five markers present, length ≥ 300 and no placeholder comment |
| GroqHtml.ValidateBlank | backend/services/groq_service.py:120-121 | blank input gives "Empty HTML code" before anything else |
| GroqHtml.ValidateFirstMissing | backend/services/groq_service.py:123-136 | the first missing element decides the message |
| GroqHtml.ValidateTooShort | backend/services/groq_service.py:139-140 | length is only checked once every element is present |
| GroqHtml.ValidatePlaceholder | backend/services/groq_service.py:142-154 | placeholder comments are checked last |
| GroqHtml.CutBeforeDocument | backend/services/groq_service.py:170-176 | from the first DOCTYPE, else from the first `<html` followed by whitespace or '>', else unchanged |
| GroqHtml.Wrap | backend/services/groq_service.py:187-200 | the fallback page starts with the DOCTYPE, ends with `</html>` and holds the text between its head and tail |
| GroqHtml.WrapIfBare | backend/services/groq_service.py:186-200 | the result is never empty and has no whitespace at either end |
| GroqHtml.Extract | backend/services/groq_service.py:164-183 | the text before wrapping has no whitespace at either end |
| GroqHtml.CleanHtmlResponse | backend/services/groq_service.py:159-202 | the cleaned response is non-empty with no surrounding whitespace |
| GroqHtml.WrapHasMarkers | backend/services/groq_service.py:126-200 | the fallback page carries all five required elements |
| GroqHtml.ValidateWrap | backend/services/groq_service.py:139-200 | the fallback page passes every structural check, and is too short exactly when the text has fewer than 15 characters |
| GroqHtml.CleanNamesDocument | backend/services/groq_service.py:186 | every cleaned response names an `<html` or `<body` element |
| GroqHtml.CleanIsNeverBlank | backend/services/groq_service.py:120-202 | the validator never reports a cleaned response as empty |
| GroqHtml.CleanWrapsBareText | backend/services/groq_service.py:186-200 | bare text becomes the fallback page around it, with the validator's verdict as in `ValidateWrap` |
| GroqHtml.CleanKeepsDocument | backend/services/groq_service.py:170-183 | a response with a document start and a closing tag is cut to exactly that span |
| GroqHtml.ExtractKeepsDocument | backend/services/groq_service.py:170-183 | the text before wrapping is exactly that span |
| GroqHtml.CutDocumentIsUnpadded | backend/services/groq_service.py:179-183 | the cut span needs no further strip |
| GeminiHtml.GeminiStart | backend/services/gemini_service.py:96-100 | from the first DOCTYPE, else from the first `<html` of any kind, else unchanged |
| GeminiHtml.GeminiWrap | backend/services/gemini_service.py:115-125 | the Gemini fallback page (no style block) starts with the DOCTYPE, ends with `</html>` and holds the text |
| GeminiHtml.GeminiWrapIfBare | backend/services/gemini_service.py:113-125 | non-empty, with no whitespace at either end |
| GeminiHtml.GeminiExtract | backend/services/gemini_service.py:94-110 | the text before wrapping has no whitespace at either end |
| GeminiHtml.GeminiClean | backend/services/gemini_service.py:94-127 | the cleaned reply is non-empty with no surrounding whitespace |
| GeminiHtml.GenerateAnimation | backend/services/gemini_service.py:88-130 | success iff the reply has non-empty text; every error carries the "Gemini API error: " prefix with the exception's message |
| GeminiHtml.GeminiWrapHasMarkers | backend/services/gemini_service.py:115-125 | the Gemini fallback page carries all five required elements |
| GeminiHtml.GeminiWrapsExactlyBareText | backend/services/gemini_service.py:113-127 | text naming neither `<html` nor `<body` becomes the fallback page, which has every required element; any other text is returned unchanged |
| GeminiHtml.GeminiNamesDocument | backend/services/gemini_service.py:113-127 | every successful result names an `<html` or `<body` element |
| GeminiHtml.StartsAgree | backend/services/gemini_service.py:96-100 | when the first `<html` is followed by whitespace or '>', both pipelines start at the same place |
| GeminiHtml.StartsDiffer | backend/services/gemini_service.py:97 | on "a<htmlx" the Groq extraction keeps everything and the Gemini one starts at the tag |
| GeminiHtml.FencesDiffer | backend/services/gemini_service.py:108-109 | a fence line inside the text is removed by the Groq cleaning and kept by the Gemini one |
| AnimationExamples.GetRelevantExamples | backend/services/animation_examples.py:838-907 | the text is the header followed by the blocks of `Selection` |
| AnimationExamples.FindMatches | backend/services/animation_examples.py:871-884 | the matching loop yields `MatchedKeys`, a direct match first, then the fuzzy word loop |
| AnimationExamples.Unique | backend/services/animation_examples.py:891-894 | the dedupe loop yields `Dedupe` |
| AnimationExamples.Prefix | backend/services/animation_examples.py:896 | Python's `[:n]`, negative n counting from the end |
| AnimationExamples.FormatExamples | backend/services/animation_examples.py:899-905 | header, then one example and rule per known key, in order |
| AnimationExamples.MatchedKeysInOrder | backend/services/animation_examples.py:871-884 | matched keys come in `keywords_map` order, each at most once |
| AnimationExamples.MatchedKeysIff | backend/services/animation_examples.py:872-884 | a key is matched exactly when a keyword occurs in the prompt or a word of 3+ characters is close to one |
| AnimationExamples.NothingMatched | backend/services/animation_examples.py:887-888 | nothing is matched exactly when no key's list selects it |
| AnimationExamples.DedupeDistinct | backend/services/animation_examples.py:891-894 | the dedupe has no repetitions and the same elements |
| AnimationExamples.DedupeOfDistinct | backend/services/animation_examples.py:891-894 | on a list without repetitions the dedupe changes nothing |
| AnimationExamples.KeysHaveExamples | backend/services/animation_examples.py:4-888 | every key of `keywords_map` and of the fallback is a key of `EXAMPLES` |
| AnimationExamples.CandidatesInKeyOrder | backend/services/animation_examples.py:871-888 | the candidates, fallback included, are map keys in map order without repetition |
| AnimationExamples.SelectionCutsCandidates | backend/services/animation_examples.py:891-896 | the selection is the first `max_examples` candidates: min(max, count) of them for max ≥ 0 |
| AnimationExamples.SelectionInKeyOrder | backend/services/animation_examples.py:871-896 | selected keys come in map order, each once |
| AnimationExamples.SelectedKeysHaveExamples | backend/services/animation_examples.py:902-905 | every selected key has an example, so none is skipped |
| AnimationExamples.SelectedExamplesAppear | backend/services/animation_examples.py:899-905 | with the real `EXAMPLES` dictionary, each selected key puts its example and the rule line into the text, at its own place |
| AnimationExamples.CandidatesWhenMatched | backend/services/animation_examples.py:872-884 | when any key matches, a key is a candidate exactly when its own list selects it |
| AnimationExamples.CandidatesWhenNothingMatched | backend/services/animation_examples.py:887-888 | when no key matches, the candidates are "bouncing" then "rotating" |
| AnimationExamples.BlocksAppend | backend/services/animation_examples.py:902-905 | the text of a list of keys is the texts of its parts, concatenated |
| AnimationExamples.BlocksAt | backend/services/animation_examples.py:902-905 | each key contributes its own block at its own place |
| AnimationExamples.SelectionIgnoresCase | backend/services/animation_examples.py:843 | lower-casing the prompt first does not change the selection |
| InputPanel.Without | frontend/src/components/InputPanel.jsx:24 | `filter(h => h !== text)`: the same entries minus `text` |
| InputPanel.NewHistoryShape | frontend/src/components/InputPanel.jsx:24 | the saved prompt is first and nowhere else, length ≤ 10, the rest is the filtered history cut at its oldest end |
| InputPanel.WithoutIsSubsequence | frontend/src/components/InputPanel.jsx:24 | filtering keeps the other entries in order |
| InputPanel.NewHistoryKeepsOrder | frontend/src/components/InputPanel.jsx:24 | the older entries keep their relative order |
| InputPanel.NewHistoryDistinct | frontend/src/components/InputPanel.jsx:24 | a history without repetitions stays without repetitions |
| InputPanel.NewHistoryKeepsAllWhenRoom | frontend/src/components/InputPanel.jsx:24 | while there is room nothing is lost and nothing else is added |
| InputPanel.HistoryLabel | frontend/src/components/InputPanel.jsx:96 | up to 50 characters shown unchanged; longer ones as their first 50 characters plus "..." |
| InputPanel.HistoryLabelBounded | frontend/src/components/InputPanel.jsx:96 | labels are at most 53 long, and shown unchanged exactly when short enough or already 50 characters plus "..." |
| InputPanel.Panel.constructor | frontend/src/components/InputPanel.jsx:13-14 | empty prompt and history |
| InputPanel.Panel.SetPrompt | frontend/src/components/InputPanel.jsx:42-44 | only the prompt changes |
| InputPanel.Panel.SaveToHistory | frontend/src/components/InputPanel.jsx:23-27 | the history becomes `NewHistory`; the rest is unchanged |
| InputPanel.Panel.HandleSubmit | frontend/src/components/InputPanel.jsx:29-34 | when the trimmed prompt is non-empty and nothing loads, it is saved and sent; otherwise nothing changes |
| InputPanel.Panel.HandleKeyDown | frontend/src/components/InputPanel.jsx:36-40 | only Enter with Ctrl or Meta submits |

## Left out

- Browser and imaging: Playwright, the page load, screenshots and Pillow's encoding are not modelled. A frame is an abstract function of virtual time, and a frame taken without the hijacker is an abstract real-time frame. Pillow's millisecond-to-centisecond rounding and `optimize=True` are Pillow internals.
- FrameCapture.RunStandalone: whether reading `--input`, launching the browser, setting the `--width`/`--height` viewport or Pillow's save fails is one parameter, `stepFails`, not a consequence of the inputs. For example, a missing input file or the negative delay that `--fps -30` gives is not derived; such a run is modelled only when the caller sets `stepFails`, and then exits 1.
- The warm-up `time.sleep(0.5)`, console logging and the `print` calls: they are timing and logging only.
- Floating point: the frame interval `1000.0 / fps` and JavaScript number addition are exact `real`s. Only the `int()` truncation is modelled.
- VirtualClock.Clock: a callback's effect is modelled as the registry operations it performs. Other page effects of callbacks are not modelled.
- VirtualClock.Clock: the `try`/`catch` around the hijacker's installation is not modelled. Installation is taken to succeed, or the probe's answer says it did not. The model takes a re-injection to follow a first run that got as far as replacing `Date`.
- Processes and files in the GIF service: `subprocess.run`, `asyncio.to_thread` and `mkstemp` are not modelled. They appear as parameters: the worker's outcome, how the steps before `try:` ended, and two fresh, distinct paths that do not start with '-'.
- GifService.RunWorker: an exception raised by `subprocess.run` or `asyncio.to_thread` itself, such as a missing interpreter, is not modelled. The source re-raises it unchanged after the same cleanup, while the model always receives a finished `WorkerRun`.
- GifService.GenerateGifFromHtml: the file system is a map, and removal errors, which the source ignores, do not occur.
- CliArgs.Parse: argparse's prefix abbreviations (`--inp`), the `--opt=value` form and `-h` combined with other tokens are not modelled. The usage text is not modelled either.
- CliArgs.ParseInt: `int()` accepting underscores between digits and non-ASCII digits is not modelled. The service only ever passes `str(n)`.
- The language-model calls: the Groq and Gemini clients, model fallback, the three-attempt retry loop and the prompts are network services. A Gemini reply is a parameter (text or an exception message).
- The content of the `EXAMPLES` pages: they are data. The model takes the example texts as a map from key to string.
- `difflib.get_close_matches` at cutoff 0.8 is an uninterpreted predicate `close(word, keywords)`. `lru_cache` is not modelled, since it does not change results.
- The `all_keywords` list in `get_relevant_examples`: it is built and never used.
- Text.Lower: case folding covers ASCII letters only, while Python's `lower()` and `re.IGNORECASE` fold all of Unicode.
- InputPanel.HistoryLabel: JavaScript string lengths count UTF-16 code units, while the model counts characters. They differ only for characters outside the Basic Multilingual Plane.
- InputPanel.Panel.SetPrompt: the text box and the suggestion and history chips are disabled while a request is loading, and the model does not carry that guard.
- InputPanel.Panel: `localStorage`, JSON and React rendering are not modelled. Loading a saved history is not modelled, so the history invariants are stated for histories the panel itself builds.
- The HTTP routes, rate limiting, CORS, the sanitizer and the other front-end components: they are outside this model's core.
