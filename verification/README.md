# Quiz trainer core, in Dafny

A model of the logic of `js/script.js`, the script of a browser multiple-choice trainer for a
networking certification. The page loads a question bank from a sheet, then runs in one of two
modes:

- **quiz mode**: random unseen questions from the selected category, with feedback after each
  answer;
- **simulated test**: 100 questions drawn by fixed per-category quotas, a two-hour countdown,
  and a pass mark of 82 correct answers.

The model is split into modules that follow the parts of the script:

| module | file | what it holds |
|---|---|---|
| `Text` | `text.dfy` | JavaScript's `trim`, `split`/`join` on single characters, decimal rendering of numbers, ASCII `toUpperCase` |
| `Helpers` | `helpers.dfy` | `escapeHTML`, `formatTime`, `arraysEqual` |
| `Shuffle` | `shuffle.dfy` | `shuffleArray`, a Fisher-Yates shuffle on an array copy, with the random draws as an input |
| `Sorting` | `sorting.dfy` | the default `Array.prototype.sort` on strings that `validateAnswer` relies on |
| `Csv` | `csv.dfy` | `parseCSV` |
| `Bank` | `bank.dfy` | the `loadSheet` row normaliser and filter, the category list, `SIM_CONFIG`, the order-free answer check, the per-category draws |
| `QuizSession` | `session.dfy` | the page's global variables as the fields of one class `Session`, with one method per handler |

Conventions used throughout:

- **Randomness.** Each `Math.random()` draw is a parameter.
  - A shuffle takes `picks`, one index per loop step, each within the range the step can produce.
  - `nextQuestion` takes `pick`, and uses the question at `pick % |pool|`.
- **Timers.** A `setTimeout` follow-up is returned as a value, and the caller runs it (`FollowUp`, `Selection`, `Launch`).
  - `Session.Tick` is one firing of the countdown's `setInterval`.
- **The category selector.** Its value is the field `category`.
- **The option buttons.**
  - The `selected` class becomes the set `picked`.
  - The `opt-disabled` class becomes the flag `locked`.

The central invariant is `Session.Valid`:

- every answer is counted once, as right or wrong;
- the per-category scores equal the right answers recorded for each category;
- in a simulated test:
  - the questions fill every quota exactly;
  - the index, `asked` and the number of recorded answers agree;
  - `correctCount` is the number of right answers recorded.

Every handler preserves this invariant.

`parseCSV` is modelled, but `loadSheet` never reaches it. `loadSheet` returns early when
`Config.SHEET_API_URL` is unset, and otherwise always takes the API branch. `SHEET_CSV_URL` is
also the empty string (`js/script.js:2`).

## Model

| member | source | states |
|---|---|---|
| Text.Trim | js/script.js:80 | The trimmed text is no longer than the input and starts and ends with no white space; it is empty exactly when the input is all white space |
| Text.TrimStart | js/script.js:80 | The left-trimmed text is a suffix of the input that does not start with white space, and everything cut off is white space |
| Text.TrimEnd | js/script.js:80 | The right-trimmed text is a prefix of the input that does not end with white space, and everything cut off is white space |
| Text.TrimSlice | js/script.js:80 | `trim` cuts white space only: the result is a contiguous slice of the input and what it drops at each end is white space |
| Text.TrimNoneOf | js/script.js:80 | Trimming adds no character: text free of a set of characters stays free of them |
| Text.TrimIdempotent | js/script.js:155 | Trimming twice is trimming once |
| Text.Split | js/script.js:154 | `split` yields at least one piece and no piece contains a separator |
| Text.JoinSplit | js/script.js:53 | Splitting on a single character and joining again with it gives back the text |
| Text.SplitJoin | js/script.js:53 | Joining pieces that hold none of the separators with one of them, and splitting the result, gives back the pieces |
| Text.SplitAtSeparator | js/script.js:154 | A separator-free head followed by a separator splits into that head and the split of the rest |
| Text.SplitNoSeparator | js/script.js:154 | A text with no separator splits into itself alone |
| Text.ConcatSplit | js/script.js:154 | Concatenating the pieces of a split is the text with the separators removed |
| Text.PiecesOf | js/script.js:154 | The pieces of a text contain no character the text lacks |
| Text.JoinNoneOf | js/script.js:154 | Pieces free of a set of characters, joined by a separator outside it, give text free of them |
| Text.WithoutNone | js/script.js:154 | Removing characters that do not occur leaves the text unchanged |
| Text.SpacesAreSpace | js/script.js:154 | The listed white space characters are exactly the characters `\s` matches |
| Text.Decimal | js/script.js:53 | `toString` of a number: non-empty decimal digits denoting the number, no leading zero, one digit exactly below 10, at most two below 100 |
| Text.LeadingZero | js/script.js:53 | A `padStart` zero keeps the value of a digit string |
| Text.Upper | js/script.js:154 | `toUpperCase` keeps the length and leaves no lower-case letter, character by character |
| Text.UpperConcat | js/script.js:154 | Upper-casing distributes over concatenation |
| Helpers.EscapeHtml | js/script.js:35-37 | The escaped text is at least as long, contains none of `<`, `>`, `"`, `'`, and every `&` in it begins one of the five entities |
| Helpers.EntityShape | js/script.js:36 | Each replacement is raw-character free, has its only `&` at the front, and a character that is not replaced stands for itself |
| Helpers.UnescapeEntity | js/script.js:36 | Decoding an entity followed by more text yields the escaped character followed by the decoding of the rest |
| Helpers.EscapeRoundTrip | js/script.js:35-37 | Decoding the five entities in the output of `escapeHTML` gives back the input: no information is lost |
| Helpers.EscapePlain | js/script.js:35-37 | Text without any of the five special characters is left unchanged |
| Helpers.EscapeConcat | js/script.js:35-37 | Escaping distributes over concatenation, since the replacement is per character |
| Helpers.Clamp | js/script.js:49 | The result is the larger of the seconds and 0: never below either, and equal to one of them |
| Helpers.Pad2 | js/script.js:53 | `padStart(2, '0')`: the result is as long as the digits, and two characters when they are shorter |
| Helpers.Pad2Spec | js/script.js:53 | The padded text ends with the digits, and everything in front of them is `0` |
| Helpers.ClockOf | js/script.js:48-52 | Negative input is clamped to 0; hours, minutes and seconds recombine to that value, with minutes and seconds below 60 |
| Helpers.FormatTime | js/script.js:48-54 | The display is at least 8 characters; below 100 hours it is exactly `hh:mm:ss` with the colons at positions 2 and 5 |
| Helpers.PadValue | js/script.js:53 | `padStart(2, '0')` of a number's digits is a digit string with that value |
| Helpers.FormatTimeIsJoin | js/script.js:53 | The display is its three padded fields joined by `:` |
| Helpers.SplitFormatTime | js/script.js:53 | Splitting the display on `:` gives back exactly the three fields |
| Helpers.FormatTimeRoundTrip | js/script.js:48-54 | Reading the display back as hours, minutes and seconds gives the clamped number of seconds |
| Helpers.FormatTimeExample | js/script.js:48-54 | The start of a simulated test, 7200 seconds, displays as `02:00:00` |
| Helpers.ArraysEqual | js/script.js:56-58 | `arraysEqual` holds exactly when the two lists are equal |
| Shuffle.Swap | js/script.js:43 | The swap exchanges the two positions, keeps every other one, and is a permutation |
| Shuffle.Shuffled | js/script.js:39-46 | The shuffled order has the input's length and elements (the same multiset) |
| Shuffle.PrefixMultiset | js/script.js:398-399 | A prefix of a list takes no element more often than the list holds it |
| Shuffle.IdentityPicks | js/script.js:42 | Drawing `j == i` at every step is a valid sequence of draws |
| Shuffle.ShuffleIdentity | js/script.js:39-46 | When every draw lands on the current index the order is unchanged |
| Shuffle.ShuffleArray | js/script.js:39-46 | The in-place loop on a fresh copy produces the order `Shuffled` describes, a permutation of the input |
| Sorting.BelowTotal | js/script.js:295-296 | Any two strings are comparable in the sort order |
| Sorting.BelowAntisymmetric | js/script.js:295-296 | Two strings that are each below the other are equal |
| Sorting.BelowTransitive | js/script.js:295-296 | The sort order is transitive |
| Sorting.Insert | js/script.js:295-296 | Inserting into a sorted list keeps it sorted and adds exactly the element |
| Sorting.Sort | js/script.js:295-296 | `sort()` returns a sorted permutation of its input |
| Sorting.SortedHeads | js/script.js:295-296 | Two sorted permutations of one another start with the same string |
| Sorting.SortedUnique | js/script.js:295-296 | Two sorted lists with the same elements are equal |
| Sorting.SameSortIffSameMultiset | js/script.js:295-297 | Two lists sort to the same list exactly when they hold the same strings equally often |
| Csv.DropCR | js/script.js:66 | Exactly one trailing `\r` is removed when the line ends in one; any other line is kept whole |
| Csv.SplitLines | js/script.js:66 | At least one line, and no line contains `\n`; where the lines are cut is stated by `SplitLinesWithoutCR` and `SplitLinesCRLF` |
| Csv.SplitLinesWithoutCR | js/script.js:66 | For text without `\r` the lines are exactly the pieces between line feeds, and joining them with line feeds gives the text back |
| Csv.SplitLinesCRLF | js/script.js:66 | Lines without `\n` written with `\r\n` breaks come back unchanged, even when a line itself ends in `\r`: only the `\r` right before each `\n` goes with the break |
| Csv.NonBlank | js/script.js:66 | The kept lines are the lines that are not blank, each kept exactly as often as it occurs |
| Csv.NonBlankOrder | js/script.js:66 | The kept lines are a subsequence of the input: their order is kept |
| Csv.FieldsFrom | js/script.js:70-77 | The scan yields at least one field and no field contains a double quote |
| Csv.SplitRow | js/script.js:69-77 | The character loop produces exactly the fields of the scan |
| Csv.FieldsJoin | js/script.js:70-77 | The fields joined by `,` are the line with its double quotes removed: the scan drops only quotes |
| Csv.FieldsWithoutQuotes | js/script.js:74 | A line without quotes is split at every comma |
| Csv.FieldsInsideQuotes | js/script.js:73-75 | Inside quotes no comma ends a field |
| Csv.FieldsAppend | js/script.js:70-77 | Scanning a quote-free prefix then the rest glues the two field lists at the seam |
| Csv.QuotedSegmentOneField | js/script.js:73-75 | A quoted segment, commas included, stays inside a single field |
| Csv.StripQuotes | js/script.js:80 | The quote-stripping `replace` leaves text without quotes unchanged; the scanner's fields, the only text it receives, hold no quotes |
| Csv.Cell | js/script.js:80 | A column past the last field gives `''`; a quote-free field gives exactly its trimmed text |
| Csv.ToRecord | js/script.js:78-82 | The record's keys are exactly the header names |
| Csv.HeaderNames | js/script.js:67 | One name per piece of the header line cut at `,`, `;` and tab; each name is trimmed and holds none of those separators |
| Csv.TrimmedPieces | js/script.js:67 | Each piece is trimmed in place and stays free of the separators |
| Csv.HeaderNamesJoin | js/script.js:67 | Trimmed, separator-free names joined by any one of the three separators read back as the same names |
| Csv.Assign | js/script.js:78-81 | The record's keys are exactly the header names |
| Csv.AssignLast | js/script.js:79-81 | For a header name that does not occur again later, the record holds its own cell: a later duplicate header overwrites |
| Csv.AssignValue | js/script.js:79-81 | Every value in the record is one of the cells |
| Csv.RecordsOf | js/script.js:68-83 | One record per data line |
| Csv.RecordsOfEach | js/script.js:68-83 | Record `k` is the record of data line `k`: order is kept |
| Csv.RecordsOfSnoc | js/script.js:68-83 | The records of one more line are the earlier records plus that line's record |
| Csv.ParsedCsv | js/script.js:65-84 | On success, one record per non-blank line after the header line, record `k` built from non-blank line `k + 1` against the header names of the first |
| Csv.ParseCsv | js/script.js:65-84 | The line-by-line loop returns exactly the parse `ParsedCsv` describes |
| Csv.CellOfFields | js/script.js:80 | A cell taken from scanned fields is trimmed and quote-free |
| Csv.CellOfLine | js/script.js:80 | The cell at `i` is the trimmed field `i`, or empty past the end; it is trimmed and quote-free |
| Csv.RecordShape | js/script.js:78-81 | A parsed record has exactly the header names as keys, and each header not repeated later maps to its trimmed field (`''` past the end of the line) |
| Csv.RecordValue | js/script.js:78-81 | The value under a header that no later column repeats is the trimmed field in that column, `''` when the line is shorter |
| Csv.RecordValuesClean | js/script.js:78-81 | Every value of a parsed record is trimmed and quote-free |
| Csv.ParsedCsvCount | js/script.js:65-84 | Parsing fails exactly when every line is blank (no header line); otherwise there is one record per non-blank line after the header |
| Csv.RowWithoutCommas | js/script.js:67-81 | A data line without commas is a single field even when it holds `;` or tabs: its trimmed text goes to the first header and every other header gets an empty cell |
| Bank.FirstOf | js/script.js:140-156 | The chain of fallback columns: empty exactly when every listed cell is empty or missing (`Get`), otherwise the value of the first non-empty one (`FirstFilled`) |
| Bank.RemoveSpaces | js/script.js:154 | The field with exactly the characters of `\s` removed, the rest kept in order; no white space is left |
| Bank.CommasToSemicolons | js/script.js:154 | Same length; each comma becomes `;` in its place and every other character is kept; no comma is left |
| Bank.NonEmpty | js/script.js:154 | `filter(Boolean)` keeps only non-empty pieces, drawn from the input, and loses no characters |
| Bank.UpperAll | js/script.js:154 | Each piece is upper-cased in place |
| Bank.UpperKeeps | js/script.js:154 | Upper-casing introduces no separator and no white space |
| Bank.CommasKeepSpaces | js/script.js:154 | Replacing commas introduces no white space |
| Bank.PiecesSpaceFree | js/script.js:154 | The pieces of white-space-free text are white-space free |
| Bank.ConcatUpperAll | js/script.js:154 | Upper-casing each piece is upper-casing their concatenation |
| Bank.WithoutCommas | js/script.js:154 | Turning commas into `;` and removing `;` is removing both |
| Bank.CorrectLetters | js/script.js:154 | The answer key is a list of non-empty, upper-case entries with no white space, comma or semicolon |
| Bank.CommasNone | js/script.js:154 | Text without commas is unchanged by the comma replacement |
| Bank.CommasAppend | js/script.js:154 | The comma replacement works piece by piece over concatenation |
| Bank.CommasJoin | js/script.js:154 | Comma-free pieces joined by `,` become the same pieces joined by `;` |
| Bank.CorrectLettersJoin | js/script.js:154 | The key is cut exactly at the separators: non-empty, space-free entries joined by `,` or by `;` come back one per entry, upper-cased |
| Bank.CorrectLettersContent | js/script.js:154 | The key's entries, laid end to end, are the raw answer with white space, commas and semicolons removed, upper-cased: nothing else is lost |
| Bank.ToQuestion | js/script.js:138-156 | The id is never empty: the row's own id, or else the 1-based position in decimal; the category is trimmed |
| Bank.KeepValid | js/script.js:157 | The filter keeps exactly the questions with text and at least one non-empty option (`Keep`), each as often as it occurs |
| Bank.KeepValidOrder | js/script.js:157 | The kept questions are a subsequence of the input: their order is kept |
| Bank.LoadQuestions | js/script.js:138-157 | The bank is no longer than the data and every question in it passes `Keep` |
| Bank.LoadQuestionsSpec | js/script.js:138-157 | A row's normalised question is in the bank exactly when it passes the filter, and every question in the bank has a non-empty id |
| Bank.LoadQuestionsCounts | js/script.js:138-157 | The bank holds each normalised row that passes the filter exactly as often as the data does, and no other, in data order |
| Bank.Among | js/script.js:162 | The category filter: exactly the listed categories that are present, a subsequence of the list |
| Bank.PresentCategories | js/script.js:161-162 | The selector's categories are those of `CATEGORIES` that some question has, in `CATEGORIES` order |
| Bank.PresentCategoriesSpec | js/script.js:161-162 | The selector lists exactly the known categories that some question has, in the order of `CATEGORIES` |
| Bank.CheckAnswer | js/script.js:295-297 | An answer is right exactly when the selection holds the key's letters, each as often, in any order |
| Bank.SimConfigShape | js/script.js:3-19 | `SIM_TOTAL`, the `Total` of the quotas of `SimConfig`, is 100, and `SIM_CONFIG` names each of `CATEGORIES` once, in the same order |
| Bank.Count | js/script.js:389 | A category count never exceeds the number of questions |
| Bank.CountAppend | js/script.js:399 | Counts add up over concatenation |
| Bank.CountSingle | js/script.js:389 | A single question counts for its own category only |
| Bank.CountPermutation | js/script.js:408 | Reordering the questions keeps every category count |
| Bank.OfCategory | js/script.js:389 | The category filter has the category's count of questions, each question of the category exactly as often as the bank holds it and no other |
| Bank.CountUniform | js/script.js:398-399 | A list of one category counts fully for it and not at all for any other |
| Bank.Draw | js/script.js:398-399 | A category's draw has exactly its quota of questions, all of that category, and takes none more often than the category holds it: no replacement |
| Bank.Draws | js/script.js:397-401 | The draws of all categories hold the table's total of questions, all from the bank; without replacement when the names are distinct (`Bank.DrawsSubBank`) |
| Bank.DrawsStep | js/script.js:397-401 | Each table entry adds its quota to its own category's count and nothing to any other |
| Bank.DropLast | js/script.js:397-401 | Dropping the last table entry keeps the quotas met and the names distinct, and the dropped name is not among the rest |
| Bank.DrawsCount | js/script.js:396-401 | With distinct category names, the draws hold exactly each category's quota |
| Bank.DrawsLast | js/script.js:397-401 | The draws are those of all but the last table entry followed by the last entry's draw |
| Bank.CountBound | js/script.js:397-401 | A draw of a new category appended to earlier draws keeps every question within the bank's copies of it |
| Bank.DrawsWithinBank | js/script.js:396-401 | With distinct names, each question is drawn at most as often as the bank holds it, and only questions of the table's categories |
| Bank.DrawsSubBank | js/script.js:396-401 | With distinct names the draws are a sub-multiset of the bank: the test is drawn without replacement |
| Bank.DrawsNone | js/script.js:396-401 | The draws hold no question of a category outside the table |
| QuizSession.CorrectTotal | js/script.js:303 | Right answers never outnumber the answers |
| QuizSession.AnswerAppended | js/script.js:303 | Recording an answer adds it to the total of right answers, and to its own category's, when it is right |
| QuizSession.SelectedLetters | js/script.js:282 | The selection is exactly the selected letters among `A` to `D`, a subsequence of the button order, without repeats |
| QuizSession.Toggle | js/script.js:280-281 | The clicked letter's selection flips and every other letter's stays |
| QuizSession.ReadyIff | js/script.js:283-284 | A key of at most one letter is validated on the first click, a longer key once as many buttons are selected as it has letters |
| QuizSession.Candidates | js/script.js:360 | For `all`, the whole bank; otherwise each question of the selected category exactly as often as the bank holds it, and no other |
| QuizSession.Unseen | js/script.js:366 | The pool is exactly the candidates whose id has not been shown, each as often as among the candidates |
| QuizSession.ScoreLines | js/script.js:448-450 | One line per table category, in table order: its score when it has one, otherwise 0 |
| QuizSession.ZeroScores | js/script.js:396-401 | A zero score for each category of the table and no other |
| QuizSession.Credit | js/script.js:329 | A right answer adds one to its own category's score; nothing else changes |
| QuizSession.CreditAnswer | js/script.js:302-304 | Recording an answer and crediting its category keep the per-category scores equal to the recorded right answers |
| QuizSession.CheckQuotas | js/script.js:387-394 | The check passes exactly when every category of `SIM_CONFIG` has at least its quota |
| QuizSession.DrawStep | js/script.js:397-401 | Each pass of the draw loop appends one category's draw and enters a zero score for it |
| QuizSession.DrawQuestions | js/script.js:396-401 | The draw loop produces exactly the draws of the table, and a zero score per category |
| QuizSession.DrawsFilled | js/script.js:396-408 | After the final shuffle the test has the table's total and exactly each category's quota, and is a sub-multiset of the bank |
| QuizSession.BuildSimulated | js/script.js:396-408 | The test is the shuffled draws, it fills every quota, takes no question more often than the bank holds it, and the length check of lines 403-406 cannot fail |
| QuizSession.Session.constructor | js/script.js:22-32 | The initial globals: quiz mode, nothing shown, counters at zero, no countdown, selector on `all` |
| QuizSession.Session.Render | js/script.js:183-250 | Showing a question makes it current with fresh buttons and adds its id to the shown set; nothing else changes |
| QuizSession.Session.NextQuestion | js/script.js:358-379 | Nothing when the category is empty; a retry exactly when every candidate was shown; otherwise an unseen candidate is shown and marked |
| QuizSession.Session.RetryAfterExhausted | js/script.js:370-373 | After the shown set is cleared, a candidate of the selected category is shown, and is the only one marked, whenever the category has one; the simulated state, counters and timer are untouched |
| QuizSession.Session.LoadSimQuestion | js/script.js:416-419 | Question `i` of the test is shown; past the end nothing changes |
| QuizSession.Session.ValidateAnswer | js/script.js:289-337 | Buttons locked; right exactly when the selection matches the key in any order; one more right or wrong; quiz: next question only after a right answer; simulated test: answer recorded, category credited, then the next question or the final score |
| QuizSession.Session.CountAnswer | js/script.js:290-299 | The buttons lock, `asked` grows by one and exactly one of the right and wrong counts grows with it |
| QuizSession.Session.RecordSimAnswer | js/script.js:302-304 | The answer is appended, its category credited when right, the index advanced, and the next step is the next question or, past the end, the final score |
| QuizSession.Session.OnSelectOption | js/script.js:276-287 | Ignored with no question or locked buttons, and then nothing changes; otherwise the button toggles, and the answer is validated exactly when the key has at most one letter or enough buttons are selected; a toggle alone changes nothing else; a validation counts one right or wrong answer, and in a test it records the answer, credits its category and schedules the next question or the final score |
| QuizSession.Session.PrepareSimulated | js/script.js:382-413 | All or nothing: it succeeds exactly when every quota can be met; on failure the simulated state is empty and the counters are untouched; on success the test is the shuffled draws, filling every quota and drawn without replacement, with zero scores and counters reset |
| QuizSession.Session.ClearSimulated | js/script.js:383-385 | Empties the simulated questions, answers and scores and nothing else |
| QuizSession.Session.FillSimulated | js/script.js:396-413 | After a passed quota check: the test is the shuffled draws filling every quota, drawn without replacement, scores zero, index 0, counters and shown set reset |
| QuizSession.Session.StartSimulated | js/script.js:408-411 | The new test, index 0, counters at zero and nothing shown; nothing else changes |
| QuizSession.Session.StopTimer | js/script.js:436-439 | The countdown stops and nothing else changes |
| QuizSession.Session.StartTimer | js/script.js:422-425 | Any running countdown is replaced by one from `seconds` |
| QuizSession.Session.ShowSimulatedScore | js/script.js:442-452 | The timer stops; the result is a pass exactly when at least 82 answers were right; in a simulated test the figures are the recorded right answers, overall and per category, and a finished test passes exactly when at most 18 answers were wrong |
| QuizSession.Session.Tick | js/script.js:426-433 | One second off the countdown; at zero or below the timer stops and a timed-out score is produced with the per-category lines of the scores (in a simulated test, the recorded right answers), otherwise the countdown keeps running; nothing else changes |
| QuizSession.Session.ResetCounters | js/script.js:511-512 | The counters are zero and nothing is marked as shown |
| QuizSession.Session.SetMode | js/script.js:507 | The mode changes and nothing else does |
| QuizSession.Session.CloseScore | js/script.js:492-502 | Back to quiz mode with counters at zero and the shown set emptied; a question of the selected category is shown whenever it has one, and the question shown becomes current with its buttons cleared and unlocked; the test state and the timer are unchanged |
| QuizSession.Session.NextFresh | js/script.js:358-379 | With nothing marked as shown, `nextQuestion` never reports exhaustion: it shows a candidate whenever the category has one, the question shown becomes current with its buttons cleared and unlocked, and only its id is marked; nothing else changes |
| QuizSession.Session.BtnQuiz | js/script.js:506-519 | Quiz mode, countdown stopped, counters at zero; a question of the selected category is shown whenever it has one, and the question shown becomes current with its buttons cleared and unlocked; the test state is unchanged |
| QuizSession.Session.LaunchSimulated | js/script.js:529-540 | A test starts exactly when every quota can be met: a two-hour countdown, the shuffled draws (each quota filled, a sub-multiset of the bank), zero scores, counters at zero and its first question current and marked; otherwise quiz mode with the test state emptied, the timer untouched, and `nextQuestion` run, whose shown question becomes current |
| QuizSession.Session.QuizFallback | js/script.js:532-540 | Quiz mode is restored and `nextQuestion` runs on the selected category, with its three outcomes; the question shown becomes current with its buttons cleared and unlocked; the test state and the timer are unchanged |
| QuizSession.Session.BeginSimulated | js/script.js:530-531 | A two-hour countdown runs and the first question of the test is current, with its buttons cleared and unlocked and its id the only one marked |
| QuizSession.Session.BtnSimulated | js/script.js:521-541 | Simulated mode; a test starts exactly when every quota can be met, with the same test, scores, countdown and first question as `LaunchSimulated`; otherwise quiz mode takes over with `nextQuestion` and its three outcomes, the question shown becomes current with its buttons cleared and unlocked |
| QuizSession.Session.Restart | js/script.js:551-571 | Counters at zero and the shown set emptied; in a simulated test a new test (the shuffled draws, within the bank) starts exactly when every quota can be met, else quiz mode with the test questions, answers and scores emptied and the index kept; in quiz mode a question is shown whenever the category has one, and the question shown becomes current with its buttons cleared and unlocked, with the test state and the timer unchanged |
| QuizSession.Session.NextButton | js/script.js:543-549 | Quiz mode: `nextQuestion`, with the no-candidates and exhaustion iffs, and an unseen candidate that becomes current and is marked; simulated test: the question at the index becomes current again while one is left, and nothing changes past the end |
| QuizSession.Session.SetCategory | js/script.js:359 | The selector's value changes and nothing else does |
| QuizSession.Session.CategoryChange | js/script.js:573-578 | Quiz mode: the shown set is cleared and a question of the new category is shown whenever it has one, and the question shown becomes current with its buttons cleared and unlocked; a simulated test ignores the selector and nothing but the selector changes |
| QuizSession.Session.ClearShown | js/script.js:575 | The shown set is emptied and nothing else changes |
| QuizSession.Session.SetBank | js/script.js:138-167 | The bank is replaced and the selector is back on `all` |
| QuizSession.Session.LoadSheet | js/script.js:138-175 | The bank is the kept, normalised rows; the selector offers the known categories present in it; a first question is shown exactly when the bank is not empty, the question shown becomes current with its buttons cleared and unlocked; the counters, the test state and the timer are unchanged |
| QuizSession.Session.InstallBank | js/script.js:159-175 | The bank is installed; nothing is shown for an empty bank, otherwise `nextQuestion` finds candidates, reports exhaustion exactly when every question was shown, and the question shown becomes current with its buttons cleared and unlocked; the counters, the test state and the timer are unchanged |

## Left out

- The `fetch` of the sheet, the JSON decoding, the configuration checks and the error messages of `loadSheet` (`js/script.js:116-136`, `176-179`). The model starts from the decoded rows.
- Rows are maps from column name to text. JSON values that are not strings (numbers, booleans, `null`) and the JavaScript truthiness of `0` or `false` in `r.x || ...` are not modelled.
- Rendering:
  - the DOM and the HTML of `renderQuestion`, `showExplanation`, `showError` and `showCorrectMessage`;
  - the score modal's markup, the review list and the focus trap;
  - `updateStats` and the display of percentages (`js/script.js:344`, `446`).
- The delays of `setTimeout` and `setInterval`. The scheduled step is returned and the caller runs it. Nothing models two steps that are pending at once.
- `Math.random()`. Every draw is a parameter.
- QuizSession.Session.NextQuestion: the pick is taken modulo the pool size instead of `Math.floor(Math.random() * pool.length)`; every index of the pool is reachable both ways.
- Text.Upper: `toUpperCase` is modelled for the ASCII letters only, not for the full Unicode case mapping.
- Sorting.Sort: the default sort compares UTF-16 code units, and the model compares characters. Only the equality of two sorted lists is used, and that does not depend on the order.
- Csv.ParseCsv: the header line is split on `,`, `;` or tab, but data lines are split on `,` only. This is modelled as written, and `Csv.RowWithoutCommas` states its effect on a `;`-separated file.
- Csv.Assign: JavaScript object keys such as `__proto__` behave specially; a record here is a plain map.
- QuizSession.Session.ShowSimulatedScore: the per-category lines are returned as data, not as the modal's HTML.
