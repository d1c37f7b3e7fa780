# Horoscope service: a Dafny model of `generate_horoscope`

The service answers a birthdate and a zodiac sign with a short daily
horoscope. Its one piece of logic is `generate_horoscope` in `app.py`:

1. It builds a prompt: a fixed system message, then the birthdate and the
   zodiac sign spliced verbatim into a fixed question.
2. It asks a hosted text-generation model for a completion of at most 200
   new tokens.
3. It post-processes the answer:
   - a non-string answer becomes the placeholder "No horoscope generated";
   - a string is stripped;
   - every newline becomes a space and the text is stripped again;
   - the text is split on '.', and the first three parts are joined with ". ".
4. It returns the birthdate, the zodiac sign and the shortened horoscope.

Any `Exception` raised on the way becomes an HTTP 500 error whose detail is
the exception's message. `KeyboardInterrupt` and `SystemExit` are not
`Exception`s and are not caught.

The model is pure, like the code it follows. It has four modules:

- `PyStr` (`pystr.dfy`): the Python `str` operations the pipeline uses.
  These are `strip()` with CPython's `isspace` table, `replace` and `split`
  for one-character arguments, `join`, and the slice `[:n]`. `Count` is not
  called by the code: it is the count of a character that the period-count
  contracts are stated in. The module also has the two reference
  definitions the shortening is proved against:
  - `PrefixWithAtMost`: the text cut before the n+1-th separator;
  - `SpaceAfterEach`: a space written after every separator.
- `Prompting` (`prompt.dfy`): the prompt template and its constants.
- `PostProcess` (`postprocess.dfy`): the steps of lines 67-77. What lines
  61-64 give back is an `InferenceResult`: `Text(s)`, `NonText` for any
  non-string value, or `Failure(message)` for an exception.
- `Horoscope` (`horoscope.dfy`): the request record, the response, the
  handler and the POST route. `GenerateHoroscope` takes the text-generation
  call as a function parameter `infer`, applied to the prompt, the model name
  and the token budget. `PostDailyHoroscope` passes the two fields of a
  `BirthdateRequest` to it.

Three things the code does not promise are proved false by example:

- The shortening is not idempotent (`ShortenNotIdempotent`).
- The horoscope can end in whitespace (`TrailingSpaceKept`).
- The horoscope can be empty (`BlankAnswer`).

The prompt ends with the literal sentence "Astrologer: Provide a concise
horoscope for today in 3 lines."

## Model

| member | source | states |
|---|---|---|
| PyStr.TrimStart | app.py:68 | a suffix of the input that is empty or starts with non-whitespace |
| PyStr.TrimEnd | app.py:68 | a prefix of the input that is empty or ends with non-whitespace |
| PyStr.TrimStartBlank | app.py:68 | `lstrip()` drops only whitespace |
| PyStr.TrimEndBlank | app.py:68 | `rstrip()` drops only whitespace |
| PyStr.StripSlice | app.py:68 | `strip()` is a slice `s[i..j]` of its input, `i` being where `lstrip()` starts |
| PyStr.StripSlicedOff | app.py:68 | only whitespace follows that slice (`TrimStartBlank` covers what precedes it) |
| PyStr.Strip | app.py:68 | the result is empty or starts and ends with non-whitespace |
| PyStr.StripBlank | app.py:68 | the result is empty exactly when the input is all whitespace |
| PyStr.StripTrimmed | app.py:73 | text whose ends are not whitespace is left unchanged by `strip()` |
| PyStr.StripIdempotent | app.py:68 | stripping twice is stripping once |
| PyStr.ReplaceChar | app.py:73 | the result has the input's length |
| PyStr.ReplaceCharAt | app.py:73 | each `from` becomes `to`, and every other character is kept, position by position |
| PyStr.ReplaceCharRemoves | app.py:73 | no `from` is left after the replacement |
| PyStr.ReplaceCharAppend | app.py:73 | the replacement distributes over concatenation |
| PyStr.ReplaceCharAbsent | app.py:73 | text without `from` is unchanged by the replacement |
| PyStr.SpaceAfterEach | app.py:77 | text without the separator is left as it is |
| PyStr.CountIsMultiplicity | app.py:76-77 | the count the period-count property is stated in is the multiset multiplicity, and is zero exactly when the character is absent |
| PyStr.Split | app.py:76 | one more part than separators (so at least one part); no part holds the separator |
| PyStr.JoinSplit | app.py:76 | joining the parts of a split with the separator gives back the text |
| PyStr.SplitJoin | app.py:76 | splitting a join of separator-free parts gives back the parts |
| PyStr.SplitNone | app.py:76 | text without the separator splits into itself alone |
| PyStr.SplitAfter | app.py:76 | the first part ends at the first separator, and the rest is split on |
| PyStr.Take | app.py:77 | `xs[:n]` is a prefix of `xs` of length min(n, len(xs)) |
| PyStr.PrefixWithAtMost | app.py:76-77 | a prefix holding min(count, n) separators that is all the text or stops right before a separator |
| PyStr.SpaceAfterEachCounts | app.py:77 | writing the spaces adds one character and one space per separator; the separator count is kept; no other character is added |
| PyStr.JoinTakeSplit | app.py:76-77 | joining the first n+1 split parts with `c + " "` is the text cut before its n+1-th `c`, with a space after each `c` kept |
| Prompting.Fill | app.py:54-58 | the head, the birthdate, the intro, the zodiac sign and the tail, each at its fixed position, with the total length |
| Prompting.FillAfterHead | app.py:56 | after the head come the birthdate and then the period that opens the intro |
| Prompting.FillDetermines | app.py:54-58 | if the intro starts with '.' and the birthdates have no '.', equal prompts have equal birthdates and zodiac signs |
| Prompting.Prompt | app.py:48-58 | the prompt starts with the system message |
| Prompting.PromptDeterminesRequest | app.py:48-58 | distinct requests with period-free birthdates give distinct prompts |
| PostProcess.Received | app.py:67-70 | a non-string result gives the placeholder; the text has no surrounding whitespace |
| PostProcess.Clean | app.py:73 | no newline is left, and the text is empty or starts and ends with non-whitespace |
| PostProcess.CleanStripped | app.py:73 | after lines 67-70 the second strip is a no-op |
| PostProcess.Shorten | app.py:76-77 | the result has exactly min(count of '.', 2) periods |
| PostProcess.PlaceholderPlain | app.py:70 | the placeholder has no surrounding whitespace, no newline and no period |
| PostProcess.ShortenIsPrefixWithSpaces | app.py:76-77 | the shortened text is the text cut before its third '.', with a space written after each of the periods kept |
| PostProcess.ShortenCutsAtPeriod | app.py:76-77 | deleting the inserted spaces leaves a prefix of the text that is all of it or stops right before a '.' |
| PostProcess.ShortenAtMostThreeParts | app.py:76-77 | the result splits on '.' into at most three parts |
| PostProcess.ShortenChars | app.py:76-77 | the shortening adds no character except the space |
| PostProcess.ShortenNoPeriod | app.py:76-77 | text without '.' is unchanged |
| PostProcess.ShortenSentences | app.py:76-77 | '.'-joined period-free sentences shorten to the first three, joined by ". " |
| PostProcess.ShortenFour | app.py:76-77 | four sentences shorten to the first three, joined by ". " |
| PostProcess.ShortenSpaced | app.py:76-77 | shortened three sentences shorten again to the same sentences with two spaces after each period |
| PostProcess.ShortenNotIdempotent | app.py:76-77 | shortening twice differs from shortening once ("a.b.c.d" gives "a. b. c", then "a.  b.  c") |
| PostProcess.PostProcessed | app.py:67-77 | the horoscope never holds a newline, and a non-string result gives exactly the placeholder |
| PostProcess.HoroscopeShape | app.py:67-77 | given the text after the newline replacement: exactly min(count of '.', 2) periods; the text cut before its third '.' with a space after each period kept; the text itself if it has no '.' |
| PostProcess.HoroscopePlainText | app.py:67-77 | one-line text with no surrounding whitespace is only shortened |
| PostProcess.ThreeLineAnswer | app.py:67-77 | three period-ended lines keep their sentences, with two spaces after each of the first two periods, and lose the final period |
| PostProcess.TrailingSpaceKept | app.py:67-77 | "a.b. .c" gives "a. b.  ", which ends in whitespace |
| PostProcess.BlankAnswer | app.py:67-77 | empty or all-whitespace text gives an empty horoscope |
| Horoscope.GenerateHoroscope | app.py:45-87 | an error exactly when the call fails, then status 500 with the failure's message; otherwise both inputs echoed with the post-processed horoscope; the placeholder for a non-string result; never a newline |
| Horoscope.PostDailyHoroscope | app.py:40-42 | the `BirthdateRequest`'s two fields reach the prompt and are echoed on success; an error exactly when the call fails, then status 500 with its message |

## Left out

- The FastAPI app, the root and GET routes, the CORS middleware and the
  uvicorn start-up are left out (app.py:8-9, 25-37, 90-92). The GET handler
  only forwards its two query parameters to `generate_horoscope`. The POST
  handler is `PostDailyHoroscope`, without its routing.
- Pydantic validation of the request fields and of the query parameters is
  left out. It is library behaviour, and the code does not check the
  YYYY-MM-DD format itself.
- The Hugging Face `InferenceClient`, its API key and the network call are
  left out (app.py:15-17, 61). They are the parameter `infer`. The model name
  and the 200-token budget are passed to it as constants.
- The output of `logging.debug` and of `print` is left out (app.py:12, 35,
  41, 64). The two `logging.debug` calls are outside the `try`.
- `print(response)` (app.py:64) is inside the `try`, so it can raise too:
  `UnicodeEncodeError` when the console cannot encode the text, `OSError` when
  standard output is closed. Line 87 turns either into a 500. The model
  folds these exceptions, like those of the call itself, into the
  `Failure(message)` of `infer`, which stands for lines 61-64 together. An
  exception's text is given as its message.
- The post-processing of lines 67-77 is modelled as unable to raise. It
  calls only `str` methods on a `str`.
- Python strings are modelled as sequences of Dafny characters. Lone
  surrogate code points, which Python allows in a `str`, are not modelled.
- `PyStr.ReplaceChar` and `PyStr.Split` cover only the one-character
  arguments the code uses (`"\n"`, `" "` and `"."`).
- Prompting.Prompt: its own contract states only the system-message
  prefix. The positions of both inputs and of the fixed text come from
  `Prompting.Fill`, which the prompt is an instance of.
