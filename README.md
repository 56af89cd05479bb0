# Typing animation and contact-form validation of the WebBuilders landing page

This project models the two parts of the page script (`script.js`) that have
behaviour one can state:

- **The typing animation** (`Typing`, in `typing.dfy`). `TypingAnimation` types a
  phrase one character per tick, pauses, deletes it again one character per
  tick and moves to the next phrase, forever. The class keeps the source's
  fields: the phrase list, the merged options, the phrase and character
  indices, the `isDeleting` and `isPaused` flags, and `display` for the text of
  the target element. One call of `type()` is one call of `Step()`. The timer
  that re-schedules `type()` becomes "the next call of `Step()`". `Step()`
  returns the base delay it would schedule. The pure function `Next` states
  the same transition on an `Anim` snapshot, and `Run` iterates it. The
  lemmas about whole runs are stated over `Run`: typing a phrase, deleting
  it, one full cycle, a full round over all phrases, and what happens with
  `loop` off. The constructor's option merge is the pure function
  `MergeOptions`. Phrases and the display are JavaScript strings, that is
  sequences of UTF-16 code units (`JsString`), because `length` and
  `substring` count code units. `Utf16` gives the code units of a phrase
  written as text, so a character outside the Basic Multilingual Plane is
  typed in two ticks, the first showing a lone high surrogate.
- **Contact-form validation** (`FormValidator`, in `contact_form.dfy`).
  `validateName` and `validatePhone` trim the field value and then check it in
  a fixed order. The first failing check picks the message shown under the
  field. They are pure functions from the raw field value to `Accepted` or
  `Rejected(error)`, and `Message(error)` is the text shown. `trim()` and the
  regular-expression class `\s` share one whitespace predicate: the ECMAScript
  WhiteSpace and LineTerminator code points. `replace(/\D/g, '')` keeps the
  ASCII digits. `name.length` counts UTF-16 code units (`JsLength`). The
  validation gate at the start of `handleSubmit` is `HandleSubmit`.

The animation is easily read as a machine with three exclusive modes
(typing, paused, deleting) that halts when `loop` is off. The code does
neither, and the model follows the code:

- With `loop` on, the code sets `isPaused` and `isDeleting` together at the
  end of a phrase. The model keeps both flags, and the invariant `Inv` records that
  they are set together.
- The code never stops ticking. With `loop` off, nothing ever deletes, so
  only the first phrase is ever shown. The character
  index then grows by one per tick forever (`LoopOffForever`,
  `LoopOffUnbounded`).

In the source, the paused tick schedules a callback after `pauseDelay`. The
callback clears `isPaused` and then calls `type()`. In the model the paused
`Step()` clears the flag itself and returns `pauseDelay` as the delay. No code
reads the flag in between, so both orders give the same states at every
`type()` call.

## Model

| member | source | states |
|---|---|---|
| `Typing.MergeOptions` | script.js:7-13 | A supplied option always wins, even 0, because the trailing spread overwrites the defaulted keys. An absent option takes its default: typeSpeed 100, backSpeed 50, pauseDelay 2000, loop true. loop is off only when `false` is supplied. |
| `Typing.MergeEmptyOptions` | script.js:8-11 | With no options every field takes its default. |
| `Typing.MergeKeepsZero` | script.js:8-12 | A supplied 0 survives the merge, although the or-default alone would turn 0 into 100. |
| `Typing.Prefix` | script.js:49 | `substring(0, k)` has length k clamped into [0, len(s)] and is a prefix of s. |
| `Typing.Next` | script.js:27-58 | One tick keeps the phrase index in range and preserves the reachable-state invariant `Inv`. `Inv` covers the index bounds, the display being the clamped prefix of the current phrase, pause only at the phrase end together with `deleting == loop`, and phrase index 0 with `loop` off. |
| `Typing.Utf16` | script.js:70-75 | The code units of a phrase written as text number between len(s) and 2·len(s), and exactly len(s) when every character lies in the Basic Multilingual Plane. |
| `Typing.EncodeChar` | script.js:70-75 | A character of the Basic Multilingual Plane is the single code unit of its own value. Any other character is a high surrogate followed by a low surrogate, and the pair decodes back to the character. |
| `Typing.Utf16Concat` | script.js:70-75 | Encoding goes character by character: the code units of a + b are those of a followed by those of b. |
| `Typing.Run` | script.js:63 | Any number of ticks keeps the phrase index in range. |
| `Typing.RunKeepsInv` | script.js:27-63 | Any number of ticks from a state satisfying `Inv` ends in a state satisfying `Inv`. |
| `Typing.RunAdd` | script.js:63 | m + n ticks are m ticks followed by n ticks. |
| `Typing.TypingRun` | script.js:47-57 | n typing ticks from character c show the prefix of length c + n. The tick that reaches the phrase length sets the pause, and sets deleting exactly when loop is on. |
| `Typing.DeletingRun` | script.js:38-46 | n deleting ticks from c show the prefix of length c - n. The tick that reaches 0 clears deleting, shows the empty text and advances the phrase index modulo the phrase count. |
| `Typing.FullCycle` | script.js:38-58 | With loop on, from `(i, 0, typing, not paused)`, exactly 2·len(texts[i]) + 1 ticks reach `((i+1) mod len(texts), 0, typing, not paused)` with an empty display. |
| `Typing.RoundTrip` | script.js:45 | With loop on, the start of phrase k is reached after the ticks of the first k phrases. After one pass over all phrases the animation is back at the start of phrase 0, so it is periodic. |
| `Typing.RoundStep` | script.js:38-58 | With loop on, if the start of phrase k - 1 is reached after the ticks of the first k - 1 phrases, the start of phrase k is reached after those of the first k. |
| `Typing.LoopOffTypesFirstPhrase` | script.js:47-56 | With loop off, len(texts[0]) ticks from the start show the whole first phrase, paused and not deleting. |
| `Typing.LoopOffOverflow` | script.js:49-52 | With loop off and the character index at or past the first phrase's length, every tick adds one to the index and keeps showing the whole phrase. |
| `Typing.LoopOffForever` | script.js:47-56 | With loop off, once the first phrase is typed: the phrase index stays 0 and the display stays the first phrase forever. The pause is never set again, and the character index is len(texts[0]) + n - 1 after n ticks. |
| `Typing.LoopOffUnbounded` | script.js:49-52 | With loop off, the character index exceeds any bound. |
| `Typing.TypingAnimation.constructor` | script.js:4-25 | Stores the phrases and the merged options. Starts at phrase 0, character 0, neither deleting nor paused. Runs the first tick as `init()` does, and establishes `Valid()`. |
| `Typing.TypingAnimation.Step` | script.js:27-64 | The new state is `Next` of the old state, and `Valid()` is kept. A paused tick leaves the display, both indices and isDeleting unchanged, clears only isPaused and waits pauseDelay. Any other tick waits backSpeed while deleting and typeSpeed otherwise, judged after the update. The typing tick reaching the phrase length sets isPaused, and sets isDeleting exactly when loop is on. The deleting tick reaching 0 clears isDeleting and advances the index modulo the phrase count. With loop on the display is `texts[i][..c]` with `0 <= c <= len(texts[i])`. |
| `Typing.TwoPhraseScenario` | script.js:27-64 | With phrases ["AB", "C"] and loop on, the displays are "A", "AB", (pause), "A", "", "C", (pause), "". After 8 ticks the animation is back at the start. |
| `Typing.AstralPhraseScenario` | script.js:47-57 | A phrase holding only U+1F600 is the two code units D83D DE00. The first tick shows the lone high surrogate without pausing, the second shows both units and pauses, and one cycle takes 5 ticks. |
| `FormValidator.TrimStart` | script.js:128 | The result is a suffix of the input. Only whitespace was removed, and the result does not start with whitespace. |
| `FormValidator.TrimEnd` | script.js:128 | The result is a prefix of the input. Only whitespace was removed, and the result does not end with whitespace. |
| `FormValidator.Trim` | script.js:152 | The trimmed value neither starts nor ends with whitespace. It is empty exactly when the input is all whitespace. |
| `FormValidator.TrimIsSlice` | script.js:128 | Trimming gives the unique slice that has only whitespace outside it and non-whitespace at both ends. |
| `FormValidator.TrimIdempotent` | script.js:152 | Trimming twice is trimming once. |
| `FormValidator.Digits` | script.js:162 | Removing the non-digits leaves only ASCII digits and never lengthens the input. It keeps a digits-only input whole and empties a digit-free one. |
| `FormValidator.DigitsConcat` | script.js:162 | Digit removal distributes over concatenation. |
| `FormValidator.DigitsOfPadded` | script.js:152-162 | Whitespace padding adds no digits. |
| `FormValidator.DigitsTrimStart` | script.js:152-162 | Removing leading whitespace does not change the digits. |
| `FormValidator.DigitsTrimEnd` | script.js:152-162 | Removing trailing whitespace does not change the digits. |
| `FormValidator.DigitsIgnoreTrim` | script.js:152-162 | Trimming before removing the non-digits does not change the digits. |
| `FormValidator.JsLength` | script.js:137 | The UTF-16 length lies between len(s) and 2·len(s), and equals len(s) when every character lies in the Basic Multilingual Plane. |
| `FormValidator.MessagesDistinct` | script.js:132-177 | Different errors show different messages. |
| `FormValidator.ValidateName` | script.js:127-149 | A rejection is one of the three name errors. "Name is required" is reported exactly when the trimmed name is empty. |
| `FormValidator.NameAccepted` | script.js:127-149 | The name is accepted exactly when the trimmed value has at least 2 characters and holds only ASCII letters and whitespace. |
| `FormValidator.NameErrorOrder` | script.js:132-145 | Errors come in the order required, too short, bad characters. "Too short" is reported exactly for a one-character name of one UTF-16 unit, whatever the character. "Bad characters" implies a non-empty name with a character outside `[a-zA-Z\s]`. |
| `FormValidator.AstralNameIsBadCharacters` | script.js:137-143 | A single character outside the Basic Multilingual Plane passes the length check, since it is 2 UTF-16 units long. It is rejected for its characters. |
| `FormValidator.ExampleNameAccepted` | script.js:127-149 | The name "Jo" is accepted. |
| `FormValidator.ValidatePhone` | script.js:151-183 | A rejection is one of the four phone errors. "Phone number is required" is reported exactly when the trimmed value is empty. |
| `FormValidator.PhonePatternOnDigits` | script.js:175-176 | On a digits-only string the optional `+` of the pattern never matches. The pattern then only asks for 1 to 16 digits that do not start with '0'. |
| `FormValidator.PhoneAccepted` | script.js:151-183 | The phone is accepted exactly when the digits of the raw value number 10 to 15 and do not start with '0'. |
| `FormValidator.PhoneErrorOrder` | script.js:164-177 | Errors come in the order required, too short, too long, invalid. "Too short" is reported exactly when the trimmed value is non-empty and has fewer than 10 digits; "too long" exactly when it has more than 15; "invalid" exactly when it has 10 to 15 digits starting with '0'. |
| `FormValidator.PlusPhoneAccepted` | script.js:161-176 | A leading `+` in front of an acceptable digit string is dropped with the other non-digits, so the phone is accepted. |
| `FormValidator.HandleSubmit` | script.js:210-216 | Both validators always run and report their own outcome. Submission proceeds to the loading state and the request exactly when both accept. |
| `FormValidator.SubmitGate` | script.js:210-216 | Submission proceeds exactly when the trimmed name is at least 2 ASCII letters or whitespace, and the phone's digits number 10 to 15 and do not start with '0'. |
| `FormValidator.ShortPhoneStopsSubmit` | script.js:164-166 | The phone "12" is rejected as too short and stops any submission before the request. |
| `FormValidator.ExampleSubmitProceeds` | script.js:210-216 | The name "Jo" with the phone "+14155550123" passes validation. |

## Left out

- Timers: the `setTimeout` re-scheduling of `type()` and of the pause callback is reduced to successive `Step()` calls. The `Math.random() * 50` jitter added to each delay is floating point and randomness. `Step()` returns the delay without it.
- Typing.TypingAnimation.constructor: requires a non-empty phrase list whose phrases are all non-empty. With an empty list the source fails reading `undefined`. With an empty phrase, the typing test `=== currentText.length` never fires, and that phrase is typed forever. The model does not cover that run.
- Typing.TypingAnimation.constructor: the element's text before the first tick is not modelled (`display` starts empty). The first tick, run by the constructor, overwrites it.
- Typing.MergeOptions: an option key that is present but `undefined`, and values of other JavaScript types (strings, `NaN`, a non-boolean `loop`), are not modelled. An option is either absent or a number (a boolean for `loop`).
- The target element and the rest of the DOM: `getElementById`, `classList`, `style.display`, and `textContent` beyond the single `display` field. This covers `showError`, `showSuccess`, `clearError`, `clearAllValidationStates`, `form.reset()`, the event wiring in `FormValidator.init`, and the five-second message timers of `showSuccessMessage` and `showErrorMessage`. The validators return the error instead of writing its message into the page.
- The request part of `handleSubmit`: `FormData`, the `toLocaleString` timestamp, `fetch`, the response check, the async try/catch/finally and the loading-button state. These are network and foreign calls. `HandleSubmit` models the gate before them.
- Smooth scrolling, the navigation-bar background on scroll, the entrance animations driven by `IntersectionObserver`, the menu toggle and the console banner. They are UI event wiring with no logic.
- FormValidator: field values are sequences of Unicode scalar values (`string`). Lone UTF-16 surrogates, which a JavaScript string may hold, cannot be represented there; `JsLength` counts the code units where the length check needs them.
- Numbers: indices, counts and speeds are unbounded integers. In the source they are IEEE doubles, so `currentCharIndex++` stops changing at 2^53. `LoopOffOverflow`, `LoopOffForever` and `LoopOffUnbounded` describe the first 2^53 ticks only. Fractional option values are not modelled either.
