# PromptForge section extractor, in Dafny

PromptForge is a small Flask service. It sends a question to a chat
completion model, asking it to answer under bold section headers such as
`**Answer**`. It then cuts the model's reply into those sections and saves
the session. This project models the part of the `/api/run` handler that
does not talk to the outside world:

- `wrappers.dfy` (`Wrappers`): `Option` and `Result`.
- `pystr.dfy` (`PyStr`): the Python string operations the handler uses.
  - `lower` is modelled as ASCII-only and length-preserving.
  - `isspace` and `strip` follow Python's whitespace set.
  - `find` and slicing follow Python.
  - `replace("**:", "**")` is a single left-to-right pass.
- `sections.dfy` (`Sections`): the section parser of app.py:163-186.
  - `SectionValue` specifies the value stored for one label.
  - `Answers` specifies the whole dictionary.
  - `ParseSections` and `ParseSection` are the loop, proved to compute `Answers`.
  - The lemmas say where a section starts and ends, when each placeholder
    appears, and that the result ignores the order of the labels.
- `handlers.dfy` (`Handlers`):
  - request validation (app.py:118-122);
  - the handler's flow once the completion text is known (app.py:116-198),
    including the error reply text;
  - the history title (app.py:74).
- `examples.dfy` (`Examples`): small worked cases.

The start and end of a section are defined in two ways:

- **As the handler computes them.** `ContentStart` is the first `find` of the
  marker plus the marker's length. `SectionEnd` is `min` of the other
  labels' hits, or the end of the text.
- **Declaratively.** `IsSectionEnd` says that no marker of another requested
  label begins inside the section, and that one begins where the section
  ends, unless the text ends there.

`SectionEndMeaning` proves that the two definitions agree. That agreement is
what lets `SectionValueOrderIndependent` show that the order of the labels
does not matter.

Python's `if next_marker` also treats a hit at index 0 as "no hit".
`SectionSlice` keeps that test. `FoundSection` shows it never fires: a hit
always lies past a marker of at least four characters.

## Model

| member | source | states |
|---|---|---|
| PyStr.LowerChar | app.py:166 | upper-case ASCII letters move up by 32 (to their lower-case form), every other character is kept, and the result is never an upper-case letter |
| PyStr.Lower | app.py:166 | `lower()` keeps the length and maps each character on its own, so indices in `lower_text` are indices in `ai_text` |
| PyStr.LowerSlice | app.py:166-185 | lower-casing commutes with slicing: the piece cut from `ai_text` lower-cases to the same piece of `lower_text` |
| PyStr.LowerKeepsBold | app.py:165-166 | the lower-cased text contains `**` exactly when the text does |
| PyStr.Slice | app.py:185 | `s[i:j]` is `s[i..j]` when the bounds are in order and in range, `s[i..]` when only `j` is past the end, and empty when `i` is past the end or the bounds cross |
| PyStr.FindMeaning | app.py:170 | `find` returns the first index at or after `from` where the pattern occurs, and returns -1 only when there is none |
| PyStr.FindFirst | app.py:170 | the first occurrence at or after `from` is what `find` returns |
| PyStr.Find | app.py:170 | the result is -1 or an index at or after `from` |
| PyStr.IsSpace | app.py:185 | space, tab, newline and carriage return are whitespace; digits, ASCII letters and `*` never are (the body lists Python's full whitespace set) |
| PyStr.Strip | app.py:185 | `strip()` never lengthens a string, and a non-empty result neither starts nor ends with whitespace; StripMeaning and StripBlank give its full meaning |
| PyStr.TrimStartMeaning | app.py:185 | `lstrip` removes exactly the leading whitespace: what it drops is whitespace, and what is left does not start with whitespace |
| PyStr.TrimEndMeaning | app.py:185 | `rstrip` removes exactly the trailing whitespace |
| PyStr.StripBlank | app.py:118-121 | `strip()` yields the empty string exactly for a string made only of whitespace |
| PyStr.StripMeaning | app.py:185 | `strip()` returns a piece of the string with only whitespace on either side, and that piece neither starts nor ends with whitespace |
| PyStr.StripInSlice | app.py:185 | the stripped slice `s[lo:hi]` occurs in `s` between `lo` and `hi` |
| PyStr.NormalizeColons | app.py:165 | the colon normalisation never lengthens the text; NormalizeSplit shows that each `**:` becomes `**` |
| PyStr.NormalizeSplit | app.py:165 | cutting the text just before a `**:` splits the pass in two: that `**:` becomes `**`, and the text on either side is normalised on its own |
| PyStr.NormalizeOnlyDropsColons | app.py:165 | the normalisation deletes colons and nothing else: removing all colons before or after it gives the same string |
| PyStr.NormalizeWithoutPattern | app.py:165 | a text without `**:` is left unchanged |
| Sections.Marker | app.py:169 | every marker has at least four characters |
| Sections.MarkerStartsBold | app.py:169 | every marker starts with `**` |
| Sections.HeaderFound | app.py:169-170 | a header `**h**` in the reply is an occurrence of the marker of every label equal to `h` up to ASCII case and surrounding whitespace, so `**ANSWER**` is found for the label "answer" |
| Sections.OtherMarkerHits | app.py:177-182 | the filtered list has at most one hit per requested label, and every hit lies at or after `start`; OtherMarkerHitsMeaning says which labels' hits it keeps |
| Sections.Min | app.py:183 | `min` returns an element of the list that is no larger than any other |
| Sections.OtherMarkerHitsMeaning | app.py:177-182 | the two comprehensions keep the `find` result of exactly those requested labels whose raw string differs from the current one and whose marker occurs at or after `start` |
| Sections.NextMarker | app.py:183 | `next_marker` is `None` exactly when no hit is left, and otherwise one of the hits, at or after `start`; NextMarkerIsNearest shows it is the nearest |
| Sections.SectionSlice | app.py:185 | the piece is `ai_text[start:next_marker]` for a non-zero `next_marker` in range, `ai_text[start:]` when `next_marker` is `None` or 0 (Python's falsy test), and empty when `start` is at or past the end |
| Sections.ContentStart | app.py:170-174 | the content of a found label starts after a whole marker and not past the end of the text; FindMeaning says that marker is the first occurrence |
| Sections.SectionEnd | app.py:183-185 | the section ends at `next_marker`, or at the end of the text, and never before its start; SectionEndMeaning shows it is the declarative end |
| Sections.NextMarkerIsNearest | app.py:176-183 | the section ends at the nearest marker of another requested label at or after its start, or at the end of the text when there is none |
| Sections.SectionEndBounds | app.py:183-185 | a section ends neither before its start nor after the text |
| Sections.SectionEndUnique | app.py:176-183 | at most one position meets the declarative definition of a section end |
| Sections.SectionEndMeaning | app.py:176-185 | a position is the end computed by the handler if and only if it meets the declarative definition |
| Sections.ValueIn | app.py:169-186 | one label's value, computed with the lower-cased copy passed in, is "(no response)", "(no content)", or a non-empty string with no whitespace at either end; MissingMarker and FoundSection give it exactly |
| Sections.SectionValue | app.py:169-186 | the same for the value stored under a label; SectionBetweenMarkers gives it in declarative terms |
| Sections.OrNoContent | app.py:186 | `part or "(no content)"` is never empty, is `part` when `part` is not empty, and is "(no content)" exactly when `part` is empty or is that text already |
| Sections.Answers | app.py:164-186 | the dictionary's keys are exactly the requested labels, as given, with one entry per distinct label |
| Sections.ParseSections | app.py:164-186 | the loop produces one entry per requested label, each the value `SectionValue` gives on the normalised text, which together are `Answers` |
| Sections.ParseSection | app.py:169-186 | one turn of the loop stores "(no response)" when the marker is missing, and otherwise the stripped slice or "(no content)" |
| Sections.MissingMarker | app.py:169-173 | a label whose marker does not occur in the lower-cased text gets "(no response)" |
| Sections.FoundSection | app.py:174-186 | a found label's content starts after its first marker and ends at the section end; the value is "(no content)" exactly when that slice is blank, and otherwise the slice with its whitespace stripped |
| Sections.SectionBetweenMarkers | app.py:174-186 | for any first occurrence of the marker and any position that meets the declarative definition of the section end, the value is the stripped text between them, or "(no content)" when it is blank |
| Sections.FoundValueIsCleanPiece | app.py:177-186 | when the marker is found, the value is "(no content)" or a non-empty piece of the normalised text that does not start or end with whitespace, and whose lower-cased form contains no marker of another requested label |
| Sections.CleanPieceOfSection | app.py:185 | the stripped text of a section is such a clean piece |
| Sections.NoMarkerInsideSection | app.py:177-185 | no piece of a section contains a marker of another requested label |
| Sections.SectionValueOrderIndependent | app.py:176-183 | a label's value depends on the set of requested labels, not on their order or repetitions |
| Sections.AnswersOrderIndependent | app.py:164-186 | requesting the same labels in another order, or with repetitions, gives the same dictionary |
| Sections.NoBoldAllNoResponse | app.py:165-173 | a reply containing no `**` maps every requested label to "(no response)" |
| Handlers.ValidateRequest | app.py:118-122 | the request is refused with "No question provided" exactly when the question, defaulting to "", is blank; otherwise it carries the stripped question and the given labels, or `["Answer", "Explanation", "Why this"]` when none are given |
| Handlers.AcceptedQuestionIsTrimmed | app.py:118 | an accepted question is a non-empty piece of the submitted one that neither starts nor ends with whitespace |
| Handlers.RunQuery | app.py:116-198 | a blank question gets status 400 and nothing is saved; otherwise the saved session holds the stripped question, the labels and the parsed answers, and the reply returns those answers with the session id |
| Handlers.ErrorText | app.py:161 | the failure text is the fixed prefix `Error contacting OpenRouter: ` followed by the message, and nothing else |
| Handlers.ErrorReplyHasNoSections | app.py:160-173 | when the failure message contains no `**`, every label of the failure reply is "(no response)" |
| Handlers.Title | app.py:74 | a title has at most 63 characters; a question of at most 60 characters is its own title, and a longer one becomes its first 60 characters followed by "..." |
| Handlers.TitleCollision | app.py:74 | two questions share a title exactly when they are equal, or when both are longer than 60 characters and agree on the first 60 |
| Examples.MarkerIgnoresSpaces | app.py:169 | the label " answer " is searched for as `**answer**` |
| Examples.MarkerIgnoresCase | app.py:169 | the label "ANSWER" is searched for as `**answer**` |
| Examples.ColonExample | app.py:165 | the normalisation is a single pass: `**::` becomes `**:` |
| Examples.ValidateExample | app.py:118-122 | a blank or missing question is refused; " q " is accepted as "q" with the default labels |
| Examples.TitleExample | app.py:74 | a 61-character question is cut to 60 characters followed by "..." |

## Left out

- Flask routing, JSON decoding and encoding, and CORS (app.py:1-13, 110-117, 198). A request body is modelled by two optional fields: `None` means the key is absent.
- Request fields of other JSON types are not modelled; `sections` is a list of strings and the question a string.
  - A `null` or non-string question makes `.strip()` raise (app.py:118).
  - A `sections` that is a number, a boolean or `null`, or a list holding a non-string, makes `', '.join(sections)` raise (app.py:129).
  - A `sections` that is a JSON string or object does not raise: the join and the loop at app.py:168 run over the string's characters or the object's keys, giving one entry per character or key.
- The completion call and the decoding of its JSON answer (app.py:124-159), since they are network I/O. The reply text is the parameter `aiText`.
  - Only the text built on failure is modelled (`ErrorText`, app.py:161).
  - The "Unexpected response" text is not modelled, since it prints an arbitrary JSON value.
- The Snowflake functions (app.py:31-105), since they are database I/O. `save_session` becomes the `saved` field of `Outcome`. Only the title expression of `get_history` (app.py:74) is modelled.
- `uuid.uuid4()` and `time.strftime` (app.py:190-191) become the parameters `id` and `ts`.
- The speech-to-text proxy (app.py:214-236) and the browser code in static/app.js. These are network and UI code.
- Python's full Unicode `lower()`: the model lower-cases ASCII letters only. Full Unicode can change a string's length, and then the handler's reuse of `lower_text` indices on `ai_text` no longer lines up.
- The order of the keys in the JSON answer: a Dafny `map` has no order.
- The loop's `continue` on a missing marker is an early return from `ParseSection`, the method that models one turn of the loop.
- Sections.MissingMarker: states only that a missing marker gives "(no response)". The converse does not hold, because the reply may itself contain the text "(no response)" right after a marker.
- Lemmas about concrete replies, such as `**Answer**: 42` giving `42`, are not included, because evaluating the parser on a literal is too costly for the verifier. The general lemmas cover such a case in three steps:
  - `NormalizeSplit` turns the `**:` into `**`.
  - `HeaderFound` finds the header.
  - `FoundSection` and `SectionBetweenMarkers` give the stripped text after the header.
