# Arms-export transaction extractor: record pipeline model

The repository scrapes a news article and sends its text to a language model
with a fixed extraction prompt. It then recovers a JSON fragment from the
model's noisy reply and decides which of the extracted candidate transactions
to keep. Before a record is posted to the transaction API, it is cleaned down
to the API's field set. A separate helper, `clean_string`, normalises
multi-line text.

This project models the deterministic core of that pipeline and proves
properties of it:

- `Extraction` models `extract_json_from_text`. The reply is trimmed, the
  code fences are deleted, and the result is trimmed again. Then the first
  `[ … ]` span is searched for, and failing that the first `{ … }` span. The
  two regular-expression searches are stated as "leftmost, then longest"
  matches and proved to be exactly what is returned.
- `ApiRecords` models `is_valid_transaction`, `allowed_fields` and
  `clean_for_api`. `Clean` is the specification function. `CleanForApi` is
  the step-by-step method, and it is proved equal to `Clean`. Which `amount`
  values survive depends on Python's `float()` acceptance. `PyFloat` writes
  that out as a grammar over ASCII digits, after `float()`'s own whitespace
  cut. That cut is narrower than `str.strip()`: it leaves U+001C to U+001F
  in place.
- `Selection` models the keep/skip loop of `main` as a method with a loop
  invariant, proved against a recursive specification. The two statements
  that can raise are modelled as an aborted run, together with the index it
  stopped at and the records kept until then:
  - `.lower()` on a truthy non-string `canadian_relevance`;
  - `explanation[:200]` on a value that cannot be sliced.
- `CleanString` models `clean_string`.
- `PyText` and `Json` are the Python string operations, the parsed JSON
  values and Python truthiness that the other modules rely on.

The code is followed wherever the documentation says something looser:

- The docstring of `extract_json_from_text` speaks of "the first `[` … `]`
  pair". The greedy `.*` actually runs to the *last* closing bracket, and
  `ExtractJson` returns that span. An array span also wins over an object that occurs
  earlier in the text.
- `source_date` is compared with "not found" after `.lower()`. The three
  required fields are compared with "Not Found" exactly as written.

## Model

| member | source | states |
|---|---|---|
| Extraction.ExtractJson | main.py:80-101 | The result is `None` exactly for empty text or when the fence-stripped text has neither an `[ … ]` nor a `{ … }` span. An array match is returned whenever one exists, and the object match only when none does. A fragment always occurs in the stripped text and is bracketed by `[ ]` or `{ }`. |
| Extraction.FenceStripped | main.py:88-89 | The text the searches run on: trimmed, then every "```json" and every "```" deleted, then trimmed again. `FenceStrippedIsClean` states what it then holds. |
| Extraction.SearchJson | main.py:92-99 | The array search comes first and the object search second. The result is the leftmost-longest span of the first search that matches, and `None` when neither matches. |
| Extraction.FindSpan | main.py:92-92 | `re.search(r"(\[.*\])", t, re.DOTALL)` as first-open to last-close. The span it returns is the leftmost-longest match. It returns `None` exactly when no match exists, and any leftmost-longest match is the one it returns. |
| Extraction.FenceStrippedIsClean | main.py:88-89 | The text that is searched contains no "```" and has no whitespace at either end. |
| Extraction.RemoveFenceNoFence | main.py:89-89 | `replace("```", "")` leaves no "```" behind, even where deletion brings backticks together. |
| Extraction.RemoveFenceLeadingTicks | main.py:89-89 | After the deletion, fewer than three backticks lead the text. The count of leading backticks is unchanged when there were fewer than three to begin with. |
| ApiRecords.AllFilled | main.py:144-147 | The loop with early `return False` is true exactly when every listed field is present, truthy and not "Not Found". |
| ApiRecords.IsValidTransaction | main.py:137-147 | A record is valid exactly when `transaction_type`, `company_division` and `recipient` are each present, truthy and not the "Not Found" sentinel. |
| ApiRecords.ValidityIgnoresOtherKeys | main.py:144-146 | Records that agree on the three required fields are equally valid, whatever else they hold. |
| ApiRecords.MissingRecipientIsInvalid | main.py:145-146 | A record whose `recipient` is absent or the sentinel is invalid. |
| ApiRecords.AnnotationsNotAllowed | main.py:152-157 | `source_url`, `canadian_relevance` and `relation_explanation` are not API fields. The three sanitised fields are. |
| ApiRecords.DateUsable | main.py:163-165 | `source_date` survives exactly when it is a string whose ASCII lower-case form is not "not found". `Clean` states this as its `source_date` clause. |
| ApiRecords.PrintedForm | main.py:171-171 | `str(v)` for strings (the text itself), booleans ("True"/"False") and null ("None"). Numbers, lists and dictionaries are judged without their text (see `AmountParses`). |
| ApiRecords.AmountParses | main.py:170-173 | The `try`/`except ValueError` around `float(...)`: a printed form parses after the deletions, a number always parses, and a list or dictionary never does. `TextAmount` states the string case, and the four amount lemmas below give concrete cases. |
| ApiRecords.Clean | main.py:152-179 | The result contains only allowed fields. The other allowed fields are copied unchanged. `source_date` is kept exactly when it is a string other than "not found" in any letter case. `amount` is kept exactly when `float()` accepts its cleaned printed form. Kept values are never altered. When the record has a `source_url`, it overrides `source_description`. Otherwise `source_description` passes through. |
| ApiRecords.CleanForApi | main.py:159-179 | The whitelist comprehension, the two `pop`s and the provenance assignment, done in order, produce exactly `Clean(tx)`. |
| ApiRecords.CleanIdempotent | main.py:159-179 | Cleaning an already cleaned record changes nothing. |
| ApiRecords.TextAmount | main.py:170-173 | A string amount survives exactly when `float` accepts it after every "," and then every "$" is deleted. |
| ApiRecords.AmountWithCurrencyDropped | main.py:170-173 | The prompt's own amount example "15,000,000 CAD" is dropped: the currency code keeps it from parsing. |
| ApiRecords.NotFoundAmountDropped | main.py:169-173 | An amount that is the "Not Found" sentinel is dropped. |
| ApiRecords.DigitsAmountKept | main.py:170-173 | An amount that is a plain run of ASCII digits is kept. |
| ApiRecords.NumericAmountKept | main.py:170-173 | A JSON number is always kept as an amount. This holds by the model's choice in `AmountParses` that every number's `str()` parses (see "## Left out"), not by a proof about the printed digits. |
| PyFloat.DigitsParse | main.py:171-171 | `float` accepts a non-empty run of ASCII digits. |
| PyFloat.ParsesAsFloat | main.py:171-171 | `float(s)` returns instead of raising: after `float()`'s whitespace cut and one sign, the text is inf, infinity or nan in any case, or a decimal literal. The lemmas below give its meaning case by case. |
| PyFloat.FloatStrip | main.py:171-171 | The whitespace cut `float()` makes. The result is a piece of the input without `float()`-whitespace at either end, and only `float()`-whitespace is cut at either end. It is empty exactly when the input is all such whitespace, and it leaves text without such ends alone. |
| PyFloat.FloatSpaceIsSpace | main.py:171-171 | Every character `float()` cuts is one `str.strip()` cuts. The reverse holds for every character but U+001C to U+001F. |
| PyFloat.TrailingSeparatorIsNotANumber | main.py:171-173 | `float("5\x1f")` raises although `str.strip()` would reduce the text to "5". Such an amount is dropped. |
| PyFloat.TrailingNoBreakSpaceIsCut | main.py:171-171 | A trailing no-break space is cut, so `float("5\xa0")` parses. |
| PyFloat.NoDigitNoNumber | main.py:171-171 | Text without a digit is never a decimal literal. `float` accepts it only as inf, infinity or nan. |
| PyFloat.WordIsNotANumber | main.py:171-171 | `float` rejects a stripped, unsigned word without digits whose length rules out the special values. |
| PyFloat.NotFoundIsNotANumber | main.py:171-171 | `float("Not Found")` raises. |
| PyFloat.DecimalLiteralAlphabet | main.py:171-171 | A decimal literal is written only with digits, `_`, `.`, `e`, `E`, `+` and `-`. |
| PyFloat.ForeignCharIsNotANumber | main.py:171-171 | `float` rejects a stripped, unsigned string that contains a character outside that alphabet and is not of a special value's length. |
| PyFloat.CurrencySuffixIsNotANumber | main.py:171-171 | `float("15000000 CAD")` raises. |
| Selection.SetDefault | main.py:228-228 | `setdefault` leaves a present key alone and otherwise adds the key with the default. No other entry changes. |
| Selection.Decide | main.py:231-242 | The loop body on one record: `Fail` for the two exceptions, otherwise skip as irrelevant, skip as invalid, or keep. Its meaning is stated by `DecideMeaning`. |
| Selection.Selection | main.py:226-247 | The outcome of the whole loop. `SelectRecords` is proved equal to it, and `SelectionWithoutFault`, `SelectionWithFault` and `KeptRecordsHaveSource` state what it keeps. |
| Selection.Relevance | main.py:231-231 | The result is `None` (the `.lower()` exception) exactly when `canadian_relevance` is truthy and not a string. An absent or falsy value gives "none". A string gives its lower-case form. |
| Selection.DecideMeaning | main.py:231-242 | A record is kept exactly when it declares a relevance other than "none" (in any letter case) and is valid. It is skipped as invalid exactly when it declares a relevance but is invalid. A record declaring no relevance is never kept. The loop body raises on a non-text relevance exactly when that value is truthy. A non-sliceable explanation raises only on the "none" path. |
| Selection.SelectRecords | main.py:226-247 | The loop, with kept records collected instead of printed, produces exactly the outcome `Selection(items, url)`. |
| Selection.AttachAll | main.py:228-228 | `setdefault("source_url", url)` applied to every record: same count, and each result is its own record with the source attached. |
| Selection.FilterMembers | main.py:235-247 | The records the loop keeps, in their order, as `Filter(Passes, …)`: a record is in the filtered sequence exactly when it is in the input and passes both gates. |
| Selection.SelectionWithoutFault | main.py:226-247 | When no record raises, the loop keeps exactly the records that pass both gates, each with its `source_url` attached, in their original order. `FilterMembers` states that `Filter` keeps exactly the elements that pass. |
| Selection.SelectionWithFault | main.py:226-247 | When record `k` is the first to raise, the run aborts at `k` with that fault. It has kept exactly the passing records before `k`. |
| Selection.KeptRecordsHaveSource | main.py:226-247 | Every kept record carries a `source_url` and passes both gates. It is one of the input records, with the loop's URL attached when it had no `source_url`. |
| Selection.KeptRecordsCiteArticle | main.py:228-228 | With `main`'s own article URL, and no extracted record bringing a `source_url`, every kept record has `source_url` equal to the article URL. It is an extracted record with only that key added. |
| CleanString.CleanLines | clean_string.py:23-23 | The comprehension yields no more lines than it was given. Each yielded line is non-empty and stripped. |
| CleanString.Clean | clean_string.py:23-24 | `clean_string(s)`. `OutputLines`, `EmptyOutput`, `AlreadyClean` and `Idempotent` state its meaning. |
| CleanString.OutputLines | clean_string.py:23-24 | Splitting a non-empty output on '\n' gives back exactly the stripped non-blank input lines, in their order. |
| CleanString.EmptyOutput | clean_string.py:1-24 | The output is empty exactly when the input is empty or all whitespace, newlines included. |
| CleanString.AlreadyClean | clean_string.py:1-24 | Text whose lines are all non-empty and stripped is returned unchanged. |
| CleanString.Idempotent | clean_string.py:1-24 | Cleaning twice is the same as cleaning once. |
| PyText.Strip | main.py:88-89 | `strip()` returns a piece of the input with no whitespace at either end, and only whitespace is cut at either end. It is empty exactly when the input is all whitespace, and it leaves stripped text alone. |
| PyText.Lower | main.py:164-164 | `str.lower()` on ASCII letters. The result has the same length, and each character is lower-cased in place. |
| PyText.RemoveAll | main.py:89-89 | `replace(pat, "")`: left-to-right, non-overlapping deletion that never lengthens the text. `RemoveFenceNoFence` and `RemoveAbsentChar` state its effect on the patterns used. |
| PyText.Split | clean_string.py:23-23 | `split('\n')`: at least one piece, none containing the separator. `JoinSplit` and `SplitJoin` tie it to `Join`. |
| PyText.Join | clean_string.py:24-24 | `'\n'.join(...)`. `JoinSplit` and `SplitJoin` state that it is the inverse of `Split`. |
| Json.Truthy | main.py:145-145 | Python's truth test (`not tx[field]`, and `x or "none"` at main.py:231). `IsValidTransaction` and `Relevance` state their results through it. |
| PyText.SplitJoin | clean_string.py:23-24 | Joining pieces that contain no separator and splitting the result gives the pieces back. |
| PyText.JoinSplit | clean_string.py:23-24 | Joining the pieces of a split with the same separator rebuilds the text. |

## Left out

- `fetch_site.py` (the page download) is not part of this model. It is I/O only.
- `process_content_with_gemini` is not modelled. It calls the network and `json.loads`, with the `or raw` fallback, and traps exceptions. It also wraps a lone object into a list (main.py:124-125). The loop model takes the resulting list of records as its input.
- `post_transaction` and the HTTP request are I/O. Only the `clean_for_api` it calls is modelled.
- The rest of `main` is left out: the API-key check, `genai.configure`, the fetch, the fewer-than-150-characters check, the empty and error results, and `time.sleep`. These are environment and control flow around the core.
- `print` and `pprint` are left out. The records the loop prints are collected into the outcome instead, and the skip messages are dropped.
- The text of the extraction prompt is left out. It is a template string with no logic.
- Extraction.ExtractJson covers `str` arguments only. A non-string argument (`isinstance` false) is not representable in the model.
- Selection.SelectRecords takes every item as a dictionary. An item of another JSON type (on which `setdefault` would raise) is outside the model.
- Selection.SelectRecords updates each record by value. The model does not capture `setdefault` mutating the caller's dictionaries in place, nor any aliasing between items.
- PyText.Lower folds ASCII letters only. Python's full Unicode `lower()` is not modelled. The model is exact for the comparisons with "none" and "not found".
- PyFloat.ParsesAsFloat accepts ASCII digits only. Python's `float` also takes other Unicode decimal digits.
- Json.JsonValue keeps numbers as exact reals. JSON `NaN` and `Infinity`, and the printed spelling of a number, are not modelled.
- ApiRecords.AmountParses takes every number's `str()` to be accepted by `float`, which holds for the finite numbers JSON text can carry, rather than deriving it from the printed digits. `NumericAmountKept` rests on this choice.
- The regular-expression engine itself is not modelled. The two fixed patterns are decided by index arithmetic and proved equal to their leftmost-longest meaning.
