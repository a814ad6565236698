# ClearBox email triage, modelled in Dafny

ClearBox sorts incoming e-mails into **Produtivo** (needs action) and
**Improdutivo** (greetings, thanks) and suggests a reply for each. The model
covers the six parts of the system that hold its logic:

- **Local fallback classifier.** The browser's `localHeuristicClassifier` counts how many of eight
  productive and five unproductive hints occur in the lower-cased text. It
  picks the category from the two scores and computes a clamped confidence.
  It then picks a reply with the keyword chains of `suggestReplyProductive`
  and `suggestReplyUnproductive` (modules `ClassifierFallback` and `SuggestReplies`).
- **Page component.** The component `EmailClassifierUI` keeps a queue of items, the
  current results, a history of batches, the selected files, the pasted text
  and a loading flag. The model is class `PageController.EmailClassifierUI`.
  Its methods are the component's event handlers: add pasted text, select
  files, a text file finishing loading, process the queue, clear, edit a reply.
  The pure parts of the page are functions in `PageModel`: the file filter,
  trimming, ids, the request payload, the mapping of remote and local
  results, reply editing and the statistics.
- **Exports.** The JSON and CSV downloads are modelled in `PageExport`, with a reader
  for the quoted CSV fields that undoes the writer.
- **Back-end preprocessing.** `preprocess_text` lower-cases, deletes punctuation, splits on white
  space, drops stop words and joins with single spaces (`NlpUtils`).
- **Back-end classifier.** `classify_email` is a keyword-substring test on the preprocessed text
  (`BackendClassifier`).
- **Back-end handler.** The `classify_emails` handler loops over the submitted e-mails and builds one
  record each (`BackendMain`).

`WorkedExamples` classifies three concrete texts end to end. The most
important is the placeholder text of a PDF item, which contains no hint.
Under the local fallback it therefore always becomes Improdutivo with
confidence 0.55 and the generic thanks reply.

Modelling choices:
- Text is `seq<char>`.
- Lower-casing covers ASCII and the Latin-1 capitals. One definition serves
  JavaScript `toLowerCase`, case-insensitive regular expressions and Python
  `lower`.
- Confidences are exact reals.
- The outside world enters as parameters:
  - The remote call is a function from the payload to `Success(results)` or
    `Failure`. Any thrown error, a non-OK status or an unreadable body is a `Failure`.
  - The random part of an id comes from an injected supply `nat -> string`
    indexed by a counter.
  - The current date of a pasted item's name is an argument.
  - The stop-word set is an argument.

Behaviour of the code worth knowing:
- The text "status do meu ticket, por favor, é urgente" scores 3 to 0. Its
  confidence is therefore 0.55 + 0.3 = 0.85 (the 0.95 cap needs a difference
  of 4) (`WorkedExamples.TicketExample`).
- History stores the result entries only, without the originating text.
- A successful response's results are taken as they are, with no check that
  their ids match the queued items.
- The front end posts `{id, text, name}` objects. The back end declares a list
  of strings, so a real server would reject the request and the page would
  fall back to local classification. Even a matching back end sends no `id`
  and no `confidence`, so its results would carry no id and the default
  confidence 0.75 (`BackendMain.BackendResultsOnThePage`).
- The component passes `r.id` to `onEditReply`. A result without an id
  therefore has its reply edit applied to every result without an id
  (`PageModel.EditWithoutIdEditsAllIdless`).

## Model

| member | source | states |
|---|---|---|
| Strings.Lower | frontend/src/utils/classifierFallback.js:7 | lower-casing keeps the length, leaves no capital and leaves every non-capital character in place |
| Strings.LowerIgnoresCase | frontend/src/utils/classifierFallback.js:7 | texts that differ only in the case of letters lower-case to the same text |
| Strings.ContainsAnyIff | frontend/src/utils/suggestReplies.js:2-15 | a regular-expression alternation matches exactly when one of its alternatives occurs as a substring |
| Strings.ContainsJoinedWords | backend/app/nlp_utils.py:20 | a search term without spaces occurs in a space-joined text exactly when it occurs in one of the words |
| Strings.SplitJoin | frontend/src/pages/EmailClassifierUI.jsx:175-180 | splitting a joined text at the separator gives the pieces back when no piece contains the separator |
| Strings.JoinSplit | frontend/src/pages/EmailClassifierUI.jsx:175-180 | joining the pieces of a split at the separator gives the original text back |
| Categories.Name | frontend/src/utils/classifierFallback.js:35-36 | each category has its own name: "Produtivo" exactly for Produtivo, "Improdutivo" exactly for Improdutivo |
| SuggestReplies.SuggestReplyProductive | frontend/src/utils/suggestReplies.js:1-12 | the reply is one of four; the access reply exactly when an access word occurs, the in-review reply exactly when none does but status/andamento does, the file reply exactly when only a file word occurs, the forwarded reply otherwise |
| SuggestReplies.SuggestReplyUnproductive | frontend/src/utils/suggestReplies.js:14-19 | the greetings reply exactly when a festive phrase occurs, the thanks reply exactly when none does |
| SuggestReplies.AccessWordWins | frontend/src/utils/suggestReplies.js:2-4 | any access word, in any case, wins over every later test |
| SuggestReplies.RepliesIgnoreCase | frontend/src/utils/suggestReplies.js:2-15 | both reply chains give the same answer for texts that differ only in case |
| SuggestReplies.SubstringNotWord | frontend/src/utils/suggestReplies.js:2 | the patterns match inside words: "RESETAR" gets the access reply |
| ClassifierFallback.CountHits | frontend/src/utils/classifierFallback.js:26-33 | a hint count never exceeds the number of hints |
| ClassifierFallback.CountHitsIsDistinctHintsPresent | frontend/src/utils/classifierFallback.js:26-33 | for a list without repeats the count is the number of distinct hints present, so repeating a hint in the text adds nothing |
| ClassifierFallback.CountHitsDependsOnPresence | frontend/src/utils/classifierFallback.js:26-33 | two texts in which the same hints occur get the same count |
| ClassifierFallback.HintListsHaveNoDuplicates | frontend/src/utils/classifierFallback.js:8-24 | neither hint list repeats an entry |
| ClassifierFallback.ScoreBounds | frontend/src/utils/classifierFallback.js:8-33 | 0 <= productive score <= 8 and 0 <= unproductive score <= 5 |
| ClassifierFallback.CategoryFor | frontend/src/utils/classifierFallback.js:35-36 | Produtivo exactly when the productive score is at least 1 and at least the unproductive score |
| ClassifierFallback.ConfidenceFor | frontend/src/utils/classifierFallback.js:45 | confidence is at most 0.95, equals 0.95 exactly when the score difference is 4 or more, and is 0.55 + 0.1 x difference below that |
| ClassifierFallback.LocalHeuristicClassifier | frontend/src/utils/classifierFallback.js:6-47 | category rule as above; the reply comes from the productive chain exactly for Produtivo; 0.05 <= confidence <= 0.95; Produtivo results have confidence >= 0.55 and Improdutivo ones <= 0.55 |
| ClassifierFallback.ClassificationIgnoresCase | frontend/src/utils/classifierFallback.js:7 | changing the case of letters changes neither score nor the classification |
| ClassifierFallback.HintFreeIsUnproductive | frontend/src/utils/classifierFallback.js:35-45 | a text with no hint is Improdutivo with confidence 0.55 and the unproductive reply |
| ClassifierFallback.NothingOccursInEmpty | frontend/src/utils/classifierFallback.js:26-33 | no non-empty hint occurs in the empty text |
| ClassifierFallback.EmptyText | frontend/src/utils/classifierFallback.js:7-45 | the empty text is Improdutivo, confidence 0.55, with the thanks reply |
| WorkedExamples.TicketExample | frontend/src/utils/classifierFallback.js:6-47 | "status do meu ticket, por favor, é urgente" scores 3 to 0 and is Produtivo, in-review reply, confidence 0.85 |
| WorkedExamples.GreetingExample | frontend/src/utils/classifierFallback.js:6-47 | "bom dia, obrigado" scores 0 to 2 and is Improdutivo, thanks reply, confidence 0.35 |
| WorkedExamples.PdfPlaceholderClassification | frontend/src/pages/EmailClassifierUI.jsx:57 | the PDF placeholder text contains no hint: scores 0 to 0, Improdutivo, thanks reply, confidence 0.55 |
| WorkedExamples.PdfSelectionUnderFallback | frontend/src/pages/EmailClassifierUI.jsx:53-58 | every PDF item queued by a file selection is classified under fallback as Improdutivo, thanks reply, 0.55, with its own id |
| PageModel.IdFor | frontend/src/pages/EmailClassifierUI.jsx:65-67 | an id begins with the source tag, has a dash right after it, and ends with the stamp, which fills the rest |
| PageModel.IdForInjective | frontend/src/pages/EmailClassifierUI.jsx:65-67 | two ids are equal only when source and stamp are |
| PageModel.AcceptedFiles | frontend/src/pages/EmailClassifierUI.jsx:37-38 | the kept files are exactly the given ones whose name ends in .txt or .pdf, in any case; all are kept exactly when all are accepted |
| PageModel.AcceptedFilesOne | frontend/src/pages/EmailClassifierUI.jsx:38 | a single file is kept exactly when its name ends in .txt or .pdf, in any case |
| PageModel.AcceptedFilesAppend | frontend/src/pages/EmailClassifierUI.jsx:37-38 | filtering a concatenation is the concatenation of the filtered parts, so kept files stay in selection order with their repetitions |
| PageModel.AcceptanceIgnoresCase | frontend/src/pages/EmailClassifierUI.jsx:38-46 | acceptance and the .txt test do not depend on the case of the name |
| PageModel.PdfItems | frontend/src/pages/EmailClassifierUI.jsx:45-59 | a selection queues at most one synchronous item per accepted file |
| PageModel.PdfItemsShape | frontend/src/pages/EmailClassifierUI.jsx:53-58 | each synchronously queued item is a file item with the placeholder text, named after a selected non-.txt file, with the id drawn from the supply in order, newest first |
| PageModel.PdfItemsNames | frontend/src/pages/EmailClassifierUI.jsx:45-59 | each placeholder item is named after its own file: read from the back, the items' names are the names of the non-.txt files in selection order |
| PageModel.PdfItemsCount | frontend/src/pages/EmailClassifierUI.jsx:45-59 | the number of synchronously queued items is the number of selected files that are not .txt |
| PageModel.PdfItemsStep | frontend/src/pages/EmailClassifierUI.jsx:45-59 | taking the next file of the selection into account adds one placeholder item in front exactly when that file is not .txt |
| PageModel.PdfItemsSnoc | frontend/src/pages/EmailClassifierUI.jsx:45-60 | one more file adds one placeholder item in front exactly when it is not .txt |
| PageModel.LeadingSpaces | frontend/src/pages/EmailClassifierUI.jsx:72-76 | counts exactly the leading white space |
| PageModel.TrailingSpaces | frontend/src/pages/EmailClassifierUI.jsx:72-76 | counts exactly the trailing white space |
| PageModel.Trim | frontend/src/pages/EmailClassifierUI.jsx:72-76 | the result has no white space at either end, is empty exactly when the text is all white space, and is a piece of the text with only white space around it |
| PageModel.TrimIdempotent | frontend/src/pages/EmailClassifierUI.jsx:76 | trimming twice is trimming once |
| PageModel.TrimPadded | frontend/src/pages/EmailClassifierUI.jsx:76 | a trimmed text padded with white space trims back to itself |
| PageModel.Payload | frontend/src/pages/EmailClassifierUI.jsx:85-89 | one `{id, text, name}` per queued item, in queue order |
| PageModel.FromRemote | frontend/src/pages/EmailClassifierUI.jsx:98-103 | id, category and reply are copied; a missing confidence becomes 0.75 |
| PageModel.RemoteResults | frontend/src/pages/EmailClassifierUI.jsx:98-103 | missing results give no entries; otherwise one mapped entry per record, in order |
| PageModel.LocalEntry | frontend/src/pages/EmailClassifierUI.jsx:107-110 | the item's id with the local classifier's category name, reply and confidence for its text |
| PageModel.LocalResults | frontend/src/pages/EmailClassifierUI.jsx:107-110 | one local entry per queued item, in order |
| PageModel.BatchResults | frontend/src/pages/EmailClassifierUI.jsx:84-112 | a successful call gives the mapped remote results, a failed one the local results |
| PageModel.FallbackEntries | frontend/src/pages/EmailClassifierUI.jsx:106-110 | under fallback every item gets an entry with its own id, one of the two category names and a confidence in [0.05, 0.95], at least 0.55 for Produtivo and at most 0.55 for Improdutivo |
| PageModel.EditReply | frontend/src/pages/EmailClassifierUI.jsx:125-129 | entries with the given id get the new reply, every other field and every other entry is unchanged |
| PageModel.EditReplyLastWins | frontend/src/pages/EmailClassifierUI.jsx:125-129 | two edits of the same id leave only the second |
| PageModel.EditReplyCommutes | frontend/src/pages/EmailClassifierUI.jsx:125-129 | edits of different ids commute |
| PageModel.EditReplyUnknownId | frontend/src/pages/EmailClassifierUI.jsx:125-129 | editing an id no entry has changes nothing |
| PageModel.EditWithoutIdEditsAllIdless | frontend/src/pages/EmailClassifierUI.jsx:125-129 | an edit issued for an entry without an id rewrites the reply of every entry without an id |
| PageModel.CountCategory | frontend/src/pages/EmailClassifierUI.jsx:28-29 | a category count never exceeds the number of results |
| PageModel.CountCategoryIsSize | frontend/src/pages/EmailClassifierUI.jsx:28-29 | a category count is the number of positions whose entry has that category |
| PageModel.CountCategoryAppend | frontend/src/pages/EmailClassifierUI.jsx:28-29 | the count of a concatenation is the sum of the counts of its parts |
| PageModel.CountCategoryOne | frontend/src/pages/EmailClassifierUI.jsx:28-29 | one entry counts once exactly when it carries the category |
| PageModel.CountsWithinTotal | frontend/src/pages/EmailClassifierUI.jsx:27-29 | productive plus unproductive counts never exceed the total |
| PageModel.StatsOf | frontend/src/pages/EmailClassifierUI.jsx:26-34 | total is the number of results, prod and unp are the Produtivo and Improdutivo counts with prod + unp <= total, a non-empty batch's average times its size is the confidence sum, and no results give zero counts and a zero average |
| PageModel.SumBounds | frontend/src/pages/EmailClassifierUI.jsx:31 | the confidence sum lies between n times the lowest and n times the highest bound |
| PageModel.AverageBounds | frontend/src/pages/EmailClassifierUI.jsx:30-32 | the average confidence of a non-empty batch lies within any bounds all its confidences respect |
| PageModel.LocalCountsCoverAll | frontend/src/pages/EmailClassifierUI.jsx:107-110 | in a local batch every entry is either Produtivo or Improdutivo |
| PageModel.FallbackStats | frontend/src/pages/EmailClassifierUI.jsx:26-34 | after a fallback batch prod + unp equals the number of items and the average confidence lies in [0.05, 0.95] |
| PageModel.StatsIgnoreReplies | frontend/src/pages/EmailClassifierUI.jsx:125-129 | editing a reply never changes the statistics |
| PageModel.SameStatsFields | frontend/src/pages/EmailClassifierUI.jsx:26-34 | batches agreeing on categories and confidences, position by position, have the same counts and sum |
| PageController.EmailClassifierUI.ItemIdsDistinct | frontend/src/pages/EmailClassifierUI.jsx:65-68 | with an injective supply no two queued items share an id |
| PageController.EmailClassifierUI.constructor | frontend/src/pages/EmailClassifierUI.jsx:17-22 | every list is empty, the pasted text is "" and nothing is loading |
| PageController.EmailClassifierUI.AddItem | frontend/src/pages/EmailClassifierUI.jsx:64-69 | the new item, with a fresh id, goes in front of the queue; nothing else changes |
| PageController.EmailClassifierUI.SetPasted | frontend/src/pages/EmailClassifierUI.jsx:241 | the pasted text is replaced; nothing else changes |
| PageController.EmailClassifierUI.HandleAddFromPaste | frontend/src/pages/EmailClassifierUI.jsx:71-79 | blank pasted text changes nothing; otherwise its trimmed form is queued as a paste item named after the date and the pasted text is cleared |
| PageController.EmailClassifierUI.HandleFilesSelected | frontend/src/pages/EmailClassifierUI.jsx:36-62 | reports whether some file was ignored exactly when one has another extension; appends the accepted files; queues one placeholder item per accepted non-.txt file, newest first |
| PageController.EmailClassifierUI.QueueAllSelected | frontend/src/pages/EmailClassifierUI.jsx:45-59 | the whole selection loop: the queue gains the placeholder items of the accepted files in front of what it held, the counter advances by their number, and nothing else changes |
| PageController.EmailClassifierUI.QueueSelected | frontend/src/pages/EmailClassifierUI.jsx:45-59 | one step of the selection loop: the queue grows by the items of one more accepted file |
| PageController.EmailClassifierUI.OnTextFileLoaded | frontend/src/pages/EmailClassifierUI.jsx:48-51 | the loaded text (or "" when there is none) is queued as a file item named after the file |
| PageController.EmailClassifierUI.ProcessAll | frontend/src/pages/EmailClassifierUI.jsx:81-116 | an empty queue changes nothing; otherwise the results become the batch results for the call's outcome, the batch is prepended to history, and loading ends false |
| PageController.EmailClassifierUI.ClearAll | frontend/src/pages/EmailClassifierUI.jsx:118-123 | files, queue, results and pasted text are emptied; history is kept |
| PageController.EmailClassifierUI.OnEditReply | frontend/src/pages/EmailClassifierUI.jsx:125-129 | the results become the edited results; nothing else changes |
| PageExport.FindById | frontend/src/pages/EmailClassifierUI.jsx:137 | nothing is found exactly when no entry has the id; what is found is an entry with that id |
| PageExport.FindByIdFirst | frontend/src/pages/EmailClassifierUI.jsx:137 | what is found is the first entry with the id |
| PageExport.FindLocalEntry | frontend/src/pages/EmailClassifierUI.jsx:107-137 | with distinct ids, each item finds its own local entry |
| PageExport.JsonRowFor | frontend/src/pages/EmailClassifierUI.jsx:136-145 | name and text from the item; category, reply and confidence from its result, or missing when it has none |
| PageExport.JsonRows | frontend/src/pages/EmailClassifierUI.jsx:136-145 | one row per queued item, in order |
| PageExport.JsonAfterFallback | frontend/src/pages/EmailClassifierUI.jsx:106-145 | after a fallback batch over items with distinct ids, every exported row carries the local classification of its text |
| PageExport.DoubleQuotes | frontend/src/pages/EmailClassifierUI.jsx:178 | doubling quotes never shortens and introduces no new character |
| PageExport.CsvField | frontend/src/pages/EmailClassifierUI.jsx:178 | a field starts and ends with a quote, and every other character in it comes from the value |
| PageExport.FlattenNewlines | frontend/src/pages/EmailClassifierUI.jsx:172 | same length, every newline turned into a space, and every other character kept in place |
| PageExport.CsvCells | frontend/src/pages/EmailClassifierUI.jsx:166-174 | four cells: the name, then category, confidence and flattened reply of the item's result, or three empty cells without one |
| PageExport.QuoteAll | frontend/src/pages/EmailClassifierUI.jsx:178 | every cell quoted, in order |
| PageExport.CsvLines | frontend/src/pages/EmailClassifierUI.jsx:175-180 | the header line, then one row per queued item in order |
| PageExport.ParseQuotedBody | frontend/src/pages/EmailClassifierUI.jsx:178 | reading a quoted field consumes at least one character |
| PageExport.ParseField | frontend/src/pages/EmailClassifierUI.jsx:178 | reading a quoted field consumes at least one character |
| PageExport.ParseQuotedBodyOfDoubled | frontend/src/pages/EmailClassifierUI.jsx:178 | the doubled-quote body followed by the closing quote reads back as the value |
| PageExport.FieldRoundTrip | frontend/src/pages/EmailClassifierUI.jsx:178 | a quoted field followed by `;` or the end of the line reads back as its value |
| PageExport.RowRoundTrip | frontend/src/pages/EmailClassifierUI.jsx:177-179 | a written row reads back as its cells, whatever they contain |
| PageExport.RowAvoidsNewline | frontend/src/pages/EmailClassifierUI.jsx:166-179 | a row holds no line break when name, category and formatted confidence hold none |
| PageExport.CsvLinePerItem | frontend/src/pages/EmailClassifierUI.jsx:164-180 | under that condition the CSV splits into exactly the header and one line per item |
| NlpUtils.PunctuationRanges | backend/app/nlp_utils.py:15 | the punctuation test is membership in Python's 32-character punctuation set |
| NlpUtils.StripPunctuation | backend/app/nlp_utils.py:15 | the result holds no punctuation |
| NlpUtils.StripDrawsFrom | backend/app/nlp_utils.py:15 | every character of the result occurs in the input |
| NlpUtils.StripKeepsOthers | backend/app/nlp_utils.py:15 | every other character is kept as often as it occurs, in order |
| NlpUtils.StripAppend | backend/app/nlp_utils.py:15 | deleting punctuation works piece by piece |
| NlpUtils.StripDropsOne | backend/app/nlp_utils.py:15 | a punctuation mark between two clean pieces disappears without a space |
| NlpUtils.WordLength | backend/app/nlp_utils.py:18 | measures exactly the leading run of non-white-space characters |
| NlpUtils.Tokens | backend/app/nlp_utils.py:18 | every token is non-empty, free of white space and made of input characters; there are none exactly when the text is all white space |
| NlpUtils.TokensOfWord | backend/app/nlp_utils.py:18 | a single word splits into itself |
| NlpUtils.TokensSplitAt | backend/app/nlp_utils.py:18 | any white-space character separates: the tokens of `a`, a white space, `b` are the tokens of `a` followed by those of `b` |
| NlpUtils.TokensOfJoin | backend/app/nlp_utils.py:18-20 | splitting a space-joined list of words gives the words back |
| NlpUtils.Filter | backend/app/nlp_utils.py:18 | no kept token is a stop word, every other token is kept as often as it occurs, and the kept tokens are in order |
| NlpUtils.JoinSingleSpaced | backend/app/nlp_utils.py:20 | words joined with one space leave no space at either end and none doubled, and the text is empty exactly for no words |
| NlpUtils.Preprocess | backend/app/nlp_utils.py:10-20 | the output has no capital, no punctuation and no white space other than plain spaces |
| NlpUtils.PreprocessWords | backend/app/nlp_utils.py:18-20 | the output's words are the tokens of the cleaned text without stop words: none is a stop word and they keep their order |
| NlpUtils.PreprocessSpacing | backend/app/nlp_utils.py:18-20 | the output is single-spaced and is empty exactly when every token is a stop word |
| NlpUtils.PreprocessIdempotent | backend/app/nlp_utils.py:10-20 | preprocessing a preprocessed text changes nothing |
| NlpUtils.PreprocessIgnoresCase | backend/app/nlp_utils.py:12 | texts that differ only in case preprocess alike |
| NlpUtils.PunctuationJoinsWords | backend/app/nlp_utils.py:15 | "Sta.tus" becomes the single word "status" |
| BackendClassifier.ClassifyEmail | backend/app/classifier.py:3-15 | Produtivo exactly when a keyword occurs in the preprocessed text; the result is one of the two fixed pairs; the response is fixed by the category |
| BackendClassifier.NothingLeftIsUnproductive | backend/app/classifier.py:5-13 | a text with no token left after stop words are removed is Improdutivo with the thanks response |
| BackendClassifier.EmptyEmail | backend/app/classifier.py:8-13 | the empty text is Improdutivo with the thanks response |
| BackendClassifier.ClassifyIgnoresCase | backend/app/classifier.py:5-8 | case never changes the verdict |
| BackendClassifier.HyphenatedKeyword | backend/app/classifier.py:5-10 | "pro-blema" is Produtivo, because punctuation is deleted before the keyword test |
| BackendMain.RecordFor | backend/app/main.py:14-19 | the record holds the e-mail and the classifier's category and response for it |
| BackendMain.ClassifyEmails | backend/app/main.py:11-20 | one record per e-mail, in order, record i for e-mail i; no e-mails give no records |
| BackendMain.AsRemote | frontend/src/pages/EmailClassifierUI.jsx:98-103 | read by the page, a back-end record has category and reply but no id and no confidence |
| BackendMain.BackendResultsOnThePage | backend/app/main.py:15-19 | read by the page, each back-end result has no id, the default confidence 0.75 and the rule classifier's verdict for its e-mail |

## Left out

- Rendering and the presentational components (EmailClassifierUI.jsx:190-452, History.jsx, StatCard.jsx, Badge.jsx): they display state and hold no logic of their own.
- The `FileReader` read of a .txt file: its completion is a separate event (`OnTextFileLoaded`), and the order in which several reads finish is not modelled.
- The clipboard, the Blob/URL downloads, `alert` and `console.log`: only the content they receive is modelled (the JSON rows, the CSV text, the ignored-file flag).
- `fetch` and the JSON parsing of the response: the call is an injected outcome. A non-OK status, a thrown error and a body that fails to parse all become `Failure`.
- `loading` is true only while the call is awaited. The model performs the call inside one method, so only the final `false` is observable.
- `Date.now()`, `Math.random()` and `prettyDate`: ids use an injected supply and a counter, and the paste date is an argument. The source does not guarantee unique ids. `ItemIdsDistinct` assumes an injective supply.
- IEEE floating point: confidences are exact reals, so `0.55 + 0.1 * 3` is exactly 0.85.
- PageExport.CsvCells: `String(number)` is an injected formatting function `fmt`, not JavaScript's number printing.
- PageModel.StatsOf: the `|| 0` guard for a missing confidence is not modelled, because every entry in the model has a confidence.
- Values that are not strings where strings are expected (`null`, numbers in JSON) are outside the model. The `text || ""` guard of the fallback classifier applies to an absent text, which items never have.
- Unicode case mapping beyond ASCII and Latin-1 capitals, for both JavaScript and Python lower-casing.
- NLTK: downloading the corpus and the Portuguese stop-word list. The stop-word set is a parameter.
- FastAPI and pydantic request parsing and response serialisation: the handler is modelled from its list of e-mails to its list of records.
- PageModel.PdfItems: its own contract bounds only the number of items. Their shape is stated by `PdfItemsShape`, and their count by `PdfItemsCount`.
