# Corporate-speak translator: saved phrases and the translation path

A browser page rewrites a user's sentence in corporate jargon. It fetches a
random buzzword phrase, asks a hosted language model to work that phrase into
the sentence, and shows the model's answer. The user can save answers. Saved
answers are kept in the browser's local storage under the key
`corporatePhrases`, as a list of `{id, text, timestamp}` records, newest
first. The user can copy a saved answer, delete it or clear the whole list.

This project models the logic of `script.js` that has a statable meaning:

- `wrappers.dfy`, module `Wrappers`: `Option` and `Result`.
- `js_text.dfy`, module `JsText`: ECMAScript `String.prototype.trim` (the
  WhiteSpace and LineTerminator characters) and `String.prototype.includes`.
- `gemini_reply.dfy`, module `GeminiReply`: the model's reply as nested
  records whose every level may be absent, and the extraction of
  `candidates[0].content.parts[0].text` (a truthy text, trimmed) or the error
  "No response generated".
- `translation.dfy`, module `Translation`: the input check, the prompt
  template, and one click on Translate as a function. The two network
  answers are parameters. The result lists the requests issued and what the
  output element shows at the end.
- `saved_phrases.dfy`, module `SavedPhrases`: the guard on the text to save,
  the `some`/`filter`/`find` list operations with their lemmas, and the class
  `PhraseStore`. Its field `item` stands for the value under the storage key
  (`None` when the key is missing). Its methods `Save`, `Delete`, `Clear` and
  `Find` are the store operations. Its invariant `Valid()` says that no two
  saved records have the same text.

The clock reading `Date.now()` and the display string
`new Date().toLocaleString()` are parameters of `Save` (`now`,
`displayTime`). The text shown in the output element is the parameter
`shown`.

Modelling decisions:

- Ids are integers compared by equality. The page passes ids back from
  `onclick` as strings and compares them with loose `==`/`!=`
  (script.js:214-215, 223, 243). For the numbers `Date.now()` yields, that
  comparison is the same as comparing the integers.
- Two records saved in the same millisecond would share an id. `Delete`
  then removes both, as the filter does, and `Find` returns the first, the
  newer one.
- `Delete` always writes the filtered list back, so a missing key becomes an
  empty list. `Clear` removes the key. Both read back as `[]`.
- A save that is rejected writes nothing to storage.
- A reply text of only whitespace is truthy, so extraction succeeds with the
  empty text. An empty reply text is falsy and gives "No response
  generated".

## Model

| member | source | states |
|---|---|---|
| JsText.SkipForward | script.js:17 | the index reached is the first non-whitespace position at or after the start, with only whitespace skipped |
| JsText.SkipBackward | script.js:17 | the index reached is just past the last non-whitespace position, with only whitespace skipped |
| JsText.Trim | script.js:156 | `trim()` returns a contiguous piece of the input with only whitespace around it, starting and ending with non-whitespace; it is empty exactly when the input is all whitespace |
| JsText.TrimOfTrimmed | script.js:82 | a text that starts and ends with non-whitespace is its own trim |
| JsText.TrimKeepsPrefix | script.js:156 | trimming a text that starts with non-whitespace keeps every prefix that ends in non-whitespace |
| JsText.TrimIdempotent | script.js:123-124 | trimming again (showResult trims text already trimmed at line 82) changes nothing |
| JsText.Contains | script.js:158 | `includes` holds exactly when the needle occurs at some position of the text |
| JsText.ContainsMiddle | script.js:89-92 | a string built by concatenation includes each piece placed in it |
| GeminiReply.ExtractText | script.js:81-85 | success exactly when candidates[0].content.parts[0].text exists and is non-empty; the value is that text trimmed; otherwise the error is "No response generated" |
| GeminiReply.ExtractOfWellFormedReply | script.js:81-82 | a reply of one candidate with one part yields its text trimmed, or the error when that text is empty |
| GeminiReply.ExtractReadsOnlyFirst | script.js:81 | candidates after the first never affect the result |
| GeminiReply.ExtractedTextIsTrimmed | script.js:82 | an extracted text is its own trim, and a whitespace-only reply text yields the empty text |
| Translation.CheckInput | script.js:17-23 | blank input gives the message "Please enter some text to translate"; otherwise the trimmed input, non-empty and without surrounding whitespace |
| Translation.Prompt | script.js:89-104 | the prompt includes both the input and the buzzword phrase, and its length is the template's plus theirs |
| Translation.TranslateToCorporate | script.js:16-47 | no request is made exactly when the input is blank, and then the validation message is shown; otherwise the buzzword is fetched first, and the model is called only with a usable phrase, with a prompt including the trimmed input and the phrase; a result is shown exactly when the model answered with extractable text, and it equals that text; every other outcome is "Translation failed: " plus the failing step's message: the thrown message of either call, "Failed to generate corporate buzzwords" for an absent or empty phrase, "No response generated" for a reply without text |
| Translation.TranslateShowsTrimmedModelText | script.js:37-39 | with a blank-free input, a usable phrase and a well-formed non-empty reply, the screen shows the reply's text trimmed |
| SavedPhrases.CheckSavable | script.js:156-164 | the output is savable exactly when its trim is non-empty and includes neither "Sophisticated dialogue will appear here" nor "Translation failed"; the saved text is the trim; otherwise "No valid phrase to save" |
| SavedPhrases.CheckSavableIsStable | script.js:156 | checking an accepted text a second time accepts the same text |
| SavedPhrases.PlaceholderIsNotSavable | script.js:158-162 | the placeholder the output is reset to is rejected |
| SavedPhrases.FailureMessageIsNotSavable | script.js:43 | any "Translation failed: ..." message is rejected, whatever its tail |
| SavedPhrases.TranslationErrorIsNotSavable | script.js:41-44 | every error a non-blank translation ends in is rejected by the save guard |
| SavedPhrases.HasText | script.js:177 | `some` holds exactly when some record has exactly that text |
| SavedPhrases.PrependKeepsTextsUnique | script.js:177-186 | putting a record with a new text in front keeps all texts unique |
| SavedPhrases.WithoutId | script.js:243 | the filter keeps exactly the records whose id differs and never grows the list |
| SavedPhrases.WithoutIdAppend | script.js:243 | the filter distributes over concatenation |
| SavedPhrases.WithoutAbsentId | script.js:243 | deleting an id no record carries leaves the list unchanged |
| SavedPhrases.WithoutIdIdempotent | script.js:243 | deleting twice gives the same list as deleting once |
| SavedPhrases.WithoutIdKeepsOrder | script.js:243 | any two kept records keep their relative order |
| SavedPhrases.WithoutIdKeepsTextsUnique | script.js:243 | deleting keeps the texts unique |
| SavedPhrases.FindById | script.js:223 | `find` returns nothing exactly when no record has the id, and otherwise the record at the first index that has it |
| SavedPhrases.FirstWithIdShift | script.js:223 | a first match in the tail behind a non-matching head is the first match of the whole list |
| SavedPhrases.FindFindsNewest | script.js:185 | a lookup of a just-saved record's id finds that record |
| SavedPhrases.FindAfterDelete | script.js:242-244 | after a delete, a lookup of the deleted id finds nothing |
| SavedPhrases.PhraseStore.Load | script.js:167 | a missing key reads as []; a stored list reads as itself |
| SavedPhrases.PhraseStore.Save | script.js:154-196 | an unsavable output is rejected with the message "No valid phrase to save" and storage is unchanged; a text equal to a saved text is rejected with the message "Phrase already saved" and storage is unchanged; otherwise the new record {now, trimmed text, displayTime} is put in front of the old list (a missing key read as []); uniqueness of texts is preserved |
| SavedPhrases.PhraseStore.Delete | script.js:241-246 | storage holds the old list without the records carrying the id; uniqueness of texts is preserved |
| SavedPhrases.PhraseStore.Clear | script.js:248-253 | the key is removed, and the list then reads as [] |
| SavedPhrases.PhraseStore.Find | script.js:221-225 | returns nothing exactly when no stored record has the id, otherwise a stored record with that id, the first one |
| SavedPhrases.SaveTwice | script.js:177-183 | saving the same output twice stores it once: the second save is rejected and the list keeps the first save's state |

## Left out

- The network calls (the buzzword fetch and the model call), their HTTP
  status handling and JSON parsing (script.js:49-58, 64-79). They are I/O
  through external services. The model takes what each call answered as a
  parameter: a value, or the message of the error it threw.
- The choice of endpoint by hostname or port (script.js:2-8). It is
  deployment routing.
- All DOM work: the loading state, the status, result and error markup, the
  rendering of the saved list and the save button's visibility
  (script.js:107-133, 198-219). Markup in a reply is not interpreted: the
  text shown is taken to be the text read back by `innerText`.
- The clipboard, the `setTimeout` restorations of the output and the
  `confirm()` dialog (script.js:136-151, 226-237, 249). These are browser APIs
  and timers. `Clear` models the confirmed case. `Find` models the lookup of
  `copyPhrase` but not the clipboard write.
- JSON serialization of the stored list. `item` holds the parsed list, and
  writing then reading back gives the same records.
- Reply fields holding values other than strings (JavaScript truthiness of
  numbers or objects at the text position). A reply text is a string or
  absent.
- The remote store described for the system (remote save, merge and
  delete). No such code is in script.js.
