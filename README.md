# Scoolize student-side core, modelled in Dafny

Scoolize is a web application in which students enter their school results and apply to
study programmes. This project models its student-facing logic and proves its properties:

- **The bulletin score extractor** (`ScoreOCR.tsx`). A photographed grade report is checked
  for type and size. It is optionally resized and binarized, then handed to a recognition
  engine. The recognised text is parsed into at most one score per subject (math, french,
  english, science).
  - The parser splits the text into trimmed, non-empty lines.
  - It tests every line against a fixed table of subject expressions, in table order.
  - For each hit it looks for a score on that line and the next two. Four score expressions
    are tried in priority order; a value outside [0, 20] falls through to the next one.
  - The first valid detection of a subject wins. Every score gets confidence 0.85.
- **The course catalogue** (`CoursesPage.tsx`): up to four optional filters over the loaded
  programmes, and the sorted list of distinct school locations.
- **The score form** (`ScoreForm.tsx`): the routing of extracted subjects into four fields,
  their average, and the choice between updating the stored record and inserting one.
- **The student dashboard** (`StudentDashboard.tsx`): application counts by status and the
  average match score.
- **The matching results** (`MatchingResults.tsx`): the split into eligible and ineligible
  programmes, the capped percentage, the unmet-requirements alert and the apply action.

Modules:

- `Text`: the JavaScript string semantics the core relies on. This covers `\d`, `\b`, `\s`,
  `trim`, `split('\n')`, `toLowerCase`, `includes` and the default sort order.
- `Seqs`: `Array.prototype.filter` and its laws.
- `Wrappers`: `Option`.
- `Subjects`: the subject table. Each regular expression is written as a list of
  alternatives over literal characters, character classes and `\b`.
- `ScorePatterns`:
  - the four score expressions, given a declarative meaning (`MatchesAt`);
  - the greedy matcher and the leftmost scan of `String.prototype.match`;
  - the value of a match.
- `ScoreParser`:
  - the parse, specified as a fold over "events" (event `t` tests subject `t % 4` on line
    `t / 4`);
  - `ParseSpec`, which characterises that fold;
  - the loop program `ParseScoresImproved`, with `parseScoresImproved`'s nested loops,
    `continue` and `break`, proved equal to the fold.
- `ImagePreprocess`:
  - the size cap, computed on reals;
  - the in-place threshold loop over an `array<int>` of RGBA bytes.
- `Upload`: the checks and stages of `processImage`.
- `Courses`, `ScoreForm` (a class for the component state), `Dashboard`, `Matching`: the
  corresponding pages and components.

Behaviour of the code worth noting:

- Any MIME type starting with `image/` is accepted, not only PNG and JPEG.
- Resized dimensions are not rounded: the code hands fractional values to the canvas.
- An out-of-range score does not stop the search. It falls through to the next expression,
  then to the next line of the window.
- A subject detected again later changes nothing, even though the loops go on after a
  score is recorded. The `break` leaves only the loop over the score expressions.
- The course score filter is enabled only for a positive minimum. The initial minimum is
  20, so at first only programmes requiring an average of at most 20 are shown.
- A successful submit of the score form only notifies. It does not store the inserted row
  as the existing record, so a second submit on the same form inserts again.
- The matching page tests its error message for truthiness, so a failure whose message is
  empty shows no alert.
- A requirement figure equal to 0 makes React print the text "0" beside the criterion, in
  place of the badge.

## Model

| member | source | states |
|---|---|---|
| ImagePreprocess.ResizeDimensions | scoolize/src/components/Student/ScoreOCR.tsx:34-46 | Dimensions within 2000 are kept. Otherwise the larger side becomes exactly 2000 (height for a square) and the ratio is kept. Both sides end within 2000. |
| ImagePreprocess.GrayScaled | scoolize/src/components/Student/ScoreOCR.tsx:60-64 | The integer test 299R+587G+114B > 128000 holds exactly when 0.299R+0.587G+0.114B > 128. |
| ImagePreprocess.Binarize | scoolize/src/components/Student/ScoreOCR.tsx:58-69 | The in-place loop leaves the buffer equal to the binarized original (with its length). |
| ImagePreprocess.BinarizedPixel | scoolize/src/components/Student/ScoreOCR.tsx:66-68 | R, G and B of each pixel take the pixel's new value; alpha is kept. |
| ImagePreprocess.BinarizedPixels | scoolize/src/components/Student/ScoreOCR.tsx:58-69 | Every pixel: R=G=B, each 0 or 255; 255 exactly when the BT.601 luminance exceeds 128; alpha unchanged. |
| ImagePreprocess.BinarizedIdempotent | scoolize/src/components/Student/ScoreOCR.tsx:60-68 | Binarizing a binarized buffer changes nothing. |
| Upload.Validate | scoolize/src/components/Student/ScoreOCR.tsx:79-98 | Each verdict holds exactly under its condition: no file; not an image type; an image over 10 MiB; an accepted image. |
| Upload.TypeCheckedFirst | scoolize/src/components/Student/ScoreOCR.tsx:82-98 | A non-image is rejected as such whatever its size; "too large" is reported only for images. |
| Upload.ProcessImage | scoolize/src/components/Student/ScoreOCR.tsx:79-166 | Some stage is reached exactly when the file is accepted. |
| Upload.RejectedReachesNoStage | scoolize/src/components/Student/ScoreOCR.tsx:80-98 | A rejected file reaches no stage and hands nothing on. The notice names the failed check; a missing file is silent. |
| Upload.AcceptedStages | scoolize/src/components/Student/ScoreOCR.tsx:103-162 | An accepted file is recognised, preprocessed exactly when preprocessing is on, and parsed exactly when recognition succeeds. A recognition failure shows the error notice and hands nothing on. |
| Upload.DeliveredScores | scoolize/src/components/Student/ScoreOCR.tsx:138-153 | Scores are handed on exactly when the parse is non-empty. They are the parse, announced with its size: 1 to 4 distinct subjects, scores in [0, 20], confidence 0.85. An empty parse shows the "no score" notice. |
| Text.SplitLines | scoolize/src/components/Student/ScoreOCR.tsx:171 | At least one piece, none holding a line feed, and joined with line feeds they give back the text. |
| Text.SplitJoin | scoolize/src/components/Student/ScoreOCR.tsx:171 | Splitting the join of line-feed-free pieces gives the pieces back: the split is unique. |
| Text.Trim | scoolize/src/components/Student/ScoreOCR.tsx:171 | A contiguous slice of the line that neither starts nor ends with whitespace, with only whitespace cut off. It is empty exactly for a blank line. |
| ScoreParser.TrimAll | scoolize/src/components/Student/ScoreOCR.tsx:171 | Same length; each piece trimmed. |
| ScoreParser.SegmentSpec | scoolize/src/components/Student/ScoreOCR.tsx:171 | The segmented lines are an order-preserving sub-list of the trimmed pieces. Each is non-empty and one of the trimmed pieces. Every non-blank trimmed piece is kept as many times as it occurs, and no empty one is kept. |
| ScoreParser.LinesSpec | scoolize/src/components/Student/ScoreOCR.tsx:171 | The lines of a text are in original order, non-empty, free of line feeds and of edge whitespace. Every non-blank piece between line feeds is among them, as many times as it occurs. |
| ScoreParser.Lines | scoolize/src/components/Student/ScoreOCR.tsx:171 | No more lines than pieces between line feeds, none of them empty. |
| Text.Lower | scoolize/src/components/Student/ScoreOCR.tsx:201 | Same length; each character lower-cased. |
| Text.LowerIdempotent | scoolize/src/components/Student/ScoreOCR.tsx:201 | Lower-casing twice is lower-casing once. |
| Subjects.SubjectName | scoolize/src/components/Student/ScoreOCR.tsx:174-198 | The parser's subject keys are math, french, english and science. |
| Subjects.SubjectIndex | scoolize/src/components/Student/ScoreOCR.tsx:204 | Each subject's position in the table order that `Object.entries` visits. |
| Subjects.SubjectNamesDistinct | scoolize/src/components/Student/ScoreOCR.tsx:174-198 | Distinct subjects have distinct keys. |
| Subjects.Keywords | scoolize/src/components/Student/ScoreOCR.tsx:174-198 | Every subject has at least one expression, and no alternative of an expression is empty, so no expression passes on every line. |
| Subjects.Test | scoolize/src/components/Student/ScoreOCR.tsx:206 | An expression's test passes exactly when some alternative matches at some position. |
| Subjects.AnyKeyword | scoolize/src/components/Student/ScoreOCR.tsx:205-206 | One of the listed expressions passes exactly when some listed expression occurs. |
| Subjects.Mentions | scoolize/src/components/Student/ScoreOCR.tsx:204-206 | A lower-cased line mentions a subject exactly when one of the subject's expressions occurs in it. |
| ScorePatterns.SkipSpaces | scoolize/src/components/Student/ScoreOCR.tsx:215-217 | A greedy `\s*` stops at the first character that is not whitespace, or at the end. |
| ScorePatterns.SpacesThenToken | scoolize/src/components/Student/ScoreOCR.tsx:215-217 | `\s*` followed by a non-space character can end only where the greedy scan stops. |
| ScorePatterns.SpacesThenEnd | scoolize/src/components/Student/ScoreOCR.tsx:216 | `\s*$` holds exactly when the greedy scan reaches the end of the line. |
| ScorePatterns.CaptureUnique | scoolize/src/components/Student/ScoreOCR.tsx:214-219 | At one position each score expression matches with one pair of group lengths at most. |
| ScorePatterns.AttemptsComplete | scoolize/src/components/Student/ScoreOCR.tsx:214-219 | Every way an expression can match is among the attempts of the backtracking matcher. |
| ScorePatterns.TryAt | scoolize/src/components/Student/ScoreOCR.tsx:222 | The matcher returns a match at a position exactly when the expression matches there. |
| ScorePatterns.Find | scoolize/src/components/Student/ScoreOCR.tsx:222 | The match found from a position is a real match, and no earlier position from there matches. Nothing is found only when nothing matches. |
| ScorePatterns.Leftmost | scoolize/src/components/Student/ScoreOCR.tsx:222 | The leftmost match of the line, if there is any. |
| ScorePatterns.MatchWellFormed | scoolize/src/components/Student/ScoreOCR.tsx:214-219 | The groups of every match are digit strings inside the line. |
| ScorePatterns.DigitsValue | scoolize/src/components/Student/ScoreOCR.tsx:228-230 | The decimal value of a digit string lies below 10 to the power of its length. |
| ScorePatterns.CaptureValue | scoolize/src/components/Student/ScoreOCR.tsx:226-231 | Without decimals the value is the integer group's value. With decimals its integer part is that value. Either way it is at least 0 and below 10^length. |
| ScorePatterns.CandidateIsLeftmost | scoolize/src/components/Student/ScoreOCR.tsx:222-231 | A number is produced exactly when the expression matches somewhere, and it is the value of the leftmost match. |
| ScorePatterns.ScoreFrom | scoolize/src/components/Student/ScoreOCR.tsx:221-246 | A score found by trying the expressions in order lies in [0, 20]. |
| ScorePatterns.ScoreFromNone | scoolize/src/components/Student/ScoreOCR.tsx:221-246 | No score exactly when no remaining expression yields an in-range number. |
| ScorePatterns.ScoreFromFirst | scoolize/src/components/Student/ScoreOCR.tsx:221-245 | The score is the number of the first expression in range; every earlier one yielded nothing or an out-of-range number. |
| ScorePatterns.LineScore | scoolize/src/components/Student/ScoreOCR.tsx:221-246 | The score of a line lies in [0, 20]. |
| ScoreParser.AnalyzeSpec | scoolize/src/components/Student/ScoreOCR.tsx:201-234 | A line names a subject exactly when one of its expressions passes on the lower-cased line. Its score is the in-range score found on it. |
| ScoreParser.FactsInRange | scoolize/src/components/Student/ScoreOCR.tsx:234 | Every line score is in [0, 20]. |
| ScoreParser.WindowFromNone | scoolize/src/components/Student/ScoreOCR.tsx:208-212 | The window yields nothing exactly when none of its existing lines carries a score. |
| ScoreParser.WindowFromFirst | scoolize/src/components/Student/ScoreOCR.tsx:208-212 | Otherwise the smallest offset carrying a score wins. |
| ScoreParser.Record | scoolize/src/components/Student/ScoreOCR.tsx:236-243 | After recording, the subject is present. An already present subject leaves the list unchanged; otherwise one entry with confidence 0.85 is appended. |
| ScoreParser.ApplyIdempotent | scoolize/src/components/Student/ScoreOCR.tsx:236-244 | Repeating a detection changes nothing. |
| ScoreParser.FirstHit | scoolize/src/components/Student/ScoreOCR.tsx:200-252 | The earliest event that tests a subject and detects a score; no earlier such event detects one. |
| ScoreParser.CollectedDescribes | scoolize/src/components/Student/ScoreOCR.tsx:200-252 | After any number of events, the result holds exactly the subjects with a hit, each with its first hit's score and confidence 0.85, in first-hit order. |
| ScoreParser.DescribesUnchanged | scoolize/src/components/Student/ScoreOCR.tsx:236-237 | An event detecting nothing, or a subject already recorded, changes neither the result nor any first hit. |
| ScoreParser.DescribesAppended | scoolize/src/components/Student/ScoreOCR.tsx:237-243 | A first detection of an unrecorded subject appends it as its first hit, after every earlier one. |
| ScoreParser.FirstHitIsFirstLine | scoolize/src/components/Student/ScoreOCR.tsx:200-206 | A subject's first hit among all events lies on the first line that detects it, at the subject's index. A subject without a hit is detected on no line. |
| ScoreParser.FirstLineExists | scoolize/src/components/Student/ScoreOCR.tsx:200 | A subject detected on some line has a first line of detection. |
| ScoreParser.FirstDetectedUnique | scoolize/src/components/Student/ScoreOCR.tsx:200 | That first line is unique. |
| ScoreParser.ParseSpec | scoolize/src/components/Student/ScoreOCR.tsx:169-255 | Every entry has confidence 0.85 and a score in [0, 20]. Subjects are unique, so at most 4. A subject is reported exactly when some line detects it, with the score of its first detecting line. Entries follow first-detection order, table order breaking ties on one line. |
| ScoreParser.ParseScores | scoolize/src/components/Student/ScoreOCR.tsx:169-255 | Any text gives at most 4 entries, distinct subjects, scores in [0, 20] and confidence 0.85. |
| ScoreParser.NothingNamedNothingReported | scoolize/src/components/Student/ScoreOCR.tsx:200-252 | No line naming a subject means an empty result. |
| ScoreParser.NoKeywordNoScores | scoolize/src/components/Student/ScoreOCR.tsx:200-252 | A text none of whose lines passes a subject expression gives no scores. |
| ScoreParser.MatchLine | scoolize/src/components/Student/ScoreOCR.tsx:221-246 | The loop over the score expressions, with its `break`, records the line's score once. |
| ScoreParser.ScanWindow | scoolize/src/components/Student/ScoreOCR.tsx:208-248 | The offset loop, with `continue` past the last line, records the window's score (the smallest offset's). |
| ScoreParser.ScanSubject | scoolize/src/components/Student/ScoreOCR.tsx:205-249 | The loop over a subject's expressions applies exactly the detection of that subject on that line. |
| ScoreParser.EventOfSubject | scoolize/src/components/Student/ScoreOCR.tsx:205-212 | A subject is detected on a line exactly when one of its expressions passes, and then with the window's score. |
| ScoreParser.ScanLines | scoolize/src/components/Student/ScoreOCR.tsx:200-252 | The nested loops over lines and subjects compute the fold over all events. |
| ScoreParser.ParseScoresImproved | scoolize/src/components/Student/ScoreOCR.tsx:169-255 | The parser program returns the specified parse of its text. |
| Courses.InitialFiltersKeep | scoolize/src/pages/CoursesPage.tsx:13-18 | With the initial filters a programme is shown exactly when it requires an average of at most 20, or none. |
| Courses.ApplyFilters | scoolize/src/pages/CoursesPage.tsx:58-86 | Filtering step by step through the enabled filters gives the programmes passing every enabled filter, in order. |
| Courses.Shown | scoolize/src/pages/CoursesPage.tsx:59-85 | Only loaded programmes that pass every enabled filter, and no more than were loaded. |
| Courses.ShownSpec | scoolize/src/pages/CoursesPage.tsx:59-85 | The shown list follows the loaded list's order and holds exactly the loaded programmes passing every enabled filter. |
| Courses.NoFilterShowsAll | scoolize/src/pages/CoursesPage.tsx:59-85 | Empty search, no level, no region and a non-positive minimum show the whole list. |
| Courses.ZeroMinScoreDisables | scoolize/src/pages/CoursesPage.tsx:81-83 | A non-positive minimum makes the required average irrelevant. |
| Courses.RaisingMinScoreKeepsPrograms | scoolize/src/pages/CoursesPage.tsx:81-83 | For a positive minimum, raising it never removes a programme. The old list is a sub-list of the new one. |
| Text.Includes | scoolize/src/pages/CoursesPage.tsx:65-66 | `includes` holds exactly when the needle occurs at some index. |
| Courses.Locations | scoolize/src/pages/CoursesPage.tsx:26 | Exactly the non-empty school locations of the programmes. |
| Text.StrLessTotal | scoolize/src/pages/CoursesPage.tsx:27 | The default string order is total. |
| Text.StrLessTransitive | scoolize/src/pages/CoursesPage.tsx:27 | The order is transitive. |
| Text.StrLessIrreflexive | scoolize/src/pages/CoursesPage.tsx:27 | The order is irreflexive. |
| Courses.InsertSorted | scoolize/src/pages/CoursesPage.tsx:26-27 | Inserting into a strictly sorted list keeps it strictly sorted and adds exactly the new element. |
| Courses.SortedDistinct | scoolize/src/pages/CoursesPage.tsx:26-27 | The result is strictly sorted with exactly the input's elements. |
| Courses.SortedHasNoDuplicates | scoolize/src/pages/CoursesPage.tsx:26 | A strictly sorted list has no duplicates. |
| Courses.SortedDeterminedByElements | scoolize/src/pages/CoursesPage.tsx:26-27 | Two strictly sorted lists with the same elements are equal. |
| Courses.Regions | scoolize/src/pages/CoursesPage.tsx:26-27 | The region list is strictly sorted and holds exactly the non-empty school locations. |
| Courses.RegionsDistinct | scoolize/src/pages/CoursesPage.tsx:26 | Each region is listed once. |
| Courses.RegionsUnique | scoolize/src/pages/CoursesPage.tsx:26-27 | Any sorted list of exactly those locations is the region list, whatever order the set came in. |
| Courses.RegionsAfterLoad | scoolize/src/pages/CoursesPage.tsx:24-29 | With no programmes the previous list is kept. Otherwise the list is sorted and holds exactly the non-empty locations. |
| ScoreForm.Take | scoolize/src/components/Student/ScoreForm.tsx:68-89 | An entry sets exactly the field its subject routes to; every other field is unchanged. |
| ScoreForm.LastFor | scoolize/src/components/Student/ScoreForm.tsx:67 | The last entry routed to a field: it routes there and no later entry does. |
| ScoreForm.ImportedField | scoolize/src/components/Student/ScoreForm.tsx:67-90 | Each field ends with its last routed entry's score, or keeps its value when no entry routes to it. |
| ScoreForm.UnknownSubjectChangesNothing | scoolize/src/components/Student/ScoreForm.tsx:68-89 | An entry with an unlisted subject changes no field. |
| ScoreForm.LaterEntryWins | scoolize/src/components/Student/ScoreForm.tsx:67 | Of two entries for one field, the later wins. |
| ScoreForm.Average | scoolize/src/components/Student/ScoreForm.tsx:39 | The average lies between the smallest and the largest field, so in [0, 20] when all four are. |
| ScoreForm.ReaderSubjectsRouted | scoolize/src/components/Student/ScoreForm.tsx:68-89 | Each subject key the extractor produces reaches its own field. |
| ScoreForm.FromReader | scoolize/src/components/Student/ScoreForm.tsx:65-67 | The extracted entries are handed over one for one, with their subject key, score and confidence. |
| ScoreForm.ImportKeepsBulletinRange | scoolize/src/components/Student/ScoreForm.tsx:67-90 | Importing scores in [0, 20] keeps every field in [0, 20]. |
| ScoreForm.ImportParsedScores | scoolize/src/components/Student/ScoreForm.tsx:65-90 | After importing the parse of any text, the average lies in [0, 20] when the fields did. |
| ScoreForm.ScoreForm.constructor | scoolize/src/components/Student/ScoreForm.tsx:29-36 | The form starts with the current year, four fields at 0, no stored record and the reader hidden. |
| ScoreForm.ScoreForm.LoadExistingScores | scoolize/src/components/Student/ScoreForm.tsx:46-63 | A returned row is stored as the existing record, and its year and four scores fill the form. Otherwise nothing changes. |
| ScoreForm.ScoreForm.HandleOCRScores | scoolize/src/components/Student/ScoreForm.tsx:65-100 | The fields become the import of the entries in list order. The reader is hidden; year and record are unchanged. |
| ScoreForm.ScoreForm.HandleSubmit | scoolize/src/components/Student/ScoreForm.tsx:102-130 | An update of the loaded record's id exactly when one was loaded, otherwise an insert. The payload is the user, year, four current fields and their average. |
| ScoreForm.SubmitTwiceOnFreshForm | scoolize/src/components/Student/ScoreForm.tsx:102-140 | On a form that found no stored record, two submits are both inserts, with the same payload for the same user and year. |
| Dashboard.CountStatus | scoolize/src/components/Student/StudentDashboard.tsx:39-41 | A status count never exceeds the number of rows. |
| Dashboard.ComputeStats | scoolize/src/components/Student/StudentDashboard.tsx:37-46 | The total is the number of rows, no status count exceeds it, and the average of no rows is 0. |
| Dashboard.CountsAddUp | scoolize/src/components/Student/StudentDashboard.tsx:38-41 | The total is the row count and each count is at most the total. The three counts add up to it when every status is one of the three. |
| Dashboard.MeanTimesCount | scoolize/src/components/Student/StudentDashboard.tsx:42-45 | The average of no rows is 0; otherwise it times the row count is the sum of the scores. |
| Dashboard.AverageMatchScoreSpec | scoolize/src/components/Student/StudentDashboard.tsx:42-45 | The average field is 0 for no rows; otherwise it times the total is the sum of the match scores, a missing score counting as 0. |
| Dashboard.AverageMatchScoreBetween | scoolize/src/components/Student/StudentDashboard.tsx:42-45 | The average field lies within any bounds that every row's match score lies within. |
| Dashboard.MeanBetween | scoolize/src/components/Student/StudentDashboard.tsx:42-45 | A mean lies within any bounds of the values it averages. |
| Dashboard.MatchScoreMeanBetween | scoolize/src/components/Student/StudentDashboard.tsx:42-45 | The average match score lies within any bounds of every row's score. |
| Dashboard.LoadStats | scoolize/src/components/Student/StudentDashboard.tsx:36-48 | Statistics are recomputed from the rows on success, and left unchanged on an error or no data. |
| Matching.EligiblePrograms | scoolize/src/components/Student/MatchingResults.tsx:121 | Only rows of the query, all eligible, and no more of them than rows. |
| Matching.IneligiblePrograms | scoolize/src/components/Student/MatchingResults.tsx:122 | Only rows of the query, none eligible, and no more of them than rows. |
| Matching.SplitSpec | scoolize/src/components/Student/MatchingResults.tsx:121-122 | Both lists keep row order. Every row lands in exactly the list its eligibility names; together they are the rows as a multiset, and their lengths add up. |
| Matching.FilterKeepsOrder | scoolize/src/components/Student/MatchingResults.tsx:121-122 | Filtering keeps an order by decreasing match score. |
| Matching.ListsByDecreasingScore | scoolize/src/components/Student/MatchingResults.tsx:83 | Rows ordered by decreasing score give both lists in that order. |
| Matching.Round | scoolize/src/components/Student/MatchingResults.tsx:174 | `Math.round` gives the integer within half of the score, halves rounded up. |
| Matching.MatchPercentage | scoolize/src/components/Student/MatchingResults.tsx:174 | At most 100, exactly 100 from 99.5 up, and otherwise the rounded score. |
| Matching.PercentageMonotone | scoolize/src/components/Student/MatchingResults.tsx:174 | A higher score never shows a lower percentage. |
| Matching.LineFor | scoolize/src/components/Student/MatchingResults.tsx:259-266 | A line shows its criterion. After it comes the badge obtained/required exactly when both figures are present and non-zero, the text "0" exactly when the first figure that is not truthy is the number 0, and nothing exactly when it is absent. |
| Matching.LinesFor | scoolize/src/components/Student/MatchingResults.tsx:259-268 | One line per unmet requirement, in order. |
| Matching.CardFor | scoolize/src/components/Student/MatchingResults.tsx:174-279 | The card shows the capped percentage and the eligibility. The alert appears exactly for an ineligible programme with unmet requirements, one line each. Apply uses the programme's own id and unrounded score. |
| Matching.CardsFor | scoolize/src/components/Student/MatchingResults.tsx:137-158 | One card per programme, in order. |
| Matching.LoadMatches | scoolize/src/components/Student/MatchingResults.tsx:74-94 | Loading is over in either case. Rows replace the list (none for `null`) and clear the error; a failure keeps the list and sets the message. |
| Matching.Render | scoolize/src/components/Student/MatchingResults.tsx:96-163 | Loading, then a non-empty error message, then the empty notice take precedence in that order, each exactly under its condition. Otherwise the lists: the cards of all eligible rows, then of all other rows, each in query order, with the badge counting the eligible cards. |
| Matching.EmptyMessageShowsNoAlert | scoolize/src/components/Student/MatchingResults.tsx:88-118 | A failure with an empty message shows no alert: the page shows the empty notice, or the lists of the rows it had. |
| Matching.CardsApplyTheirRow | scoolize/src/components/Student/MatchingResults.tsx:137-158 | Each card of the eligible section is eligible and each of the other section is not. Each card applies with the id and score of a row of its own kind. |

## Left out

- The recognition engine (worker creation, parameters, `recognize`, `terminate`) is foreign and asynchronous. Its text, or its failure, is the parameter `recognized` of `Upload.ProcessImage`. The language choice and whitelist are not modelled.
- Image decoding and the canvas are browser APIs. Drawing, `getImageData`, `putImageData` and the data URL are not modelled, and neither is the preview.
- ImagePreprocess.ResizeDimensions: the canvas's truncation of fractional sizes is not modelled.
- preprocessImage never settles when an image fails to decode, because it installs no error handler. The model lets preprocessing always succeed.
- ImagePreprocess.Binarize is stated for any integers in the buffer. Canvas bytes lie in [0, 255] and canvas data is whole pixels: the method requires a length divisible by 4, which canvas data always meets.
- JavaScript numbers are doubles. The model uses exact integers and reals, so results may differ at exact thresholds: the luminance at 128, a score of exactly 20, a rounding half.
- Text.Lower lower-cases ASCII, Latin-1 capitals and 'Ÿ' only. Those are the letters the recognition engine is told to produce; full Unicode case mapping is not modelled.
- Strings are sequences of Unicode scalar values, not UTF-16 code units. `Text.StrLess` compares code points, which differs from the default sort only for characters outside the Basic Multilingual Plane.
- All database queries, inserts and updates are I/O, as are their errors and the notifications. They appear only as parameters (rows, `None` on failure) or as the `Write` a submit would send.
- ScoreForm.ScoreForm.HandleSubmit models the update-versus-insert choice only. The loading flag, the error path and the success notification are not modelled. The optional `onSuccess` callback is not modelled either; the student page passes none.
- ScoreForm.ScoreForm.constructor: the current year comes from the clock and is a parameter here.
- React rendering is modelled only as the `View` and `Card` values that `Matching.Render` returns. So are the section headings and the plural of the badge. The details accordion of a card is not modelled.
- Matching.LoadMatches: the error message is a parameter. The naming of `Error` instances versus other thrown values is not modelled, nor is the loading state set while the query runs.
- Dashboard.ComputeStats: `match_score || 0` also turns `NaN` into 0, which real numbers cannot express.
- Courses.ApplyFilters: the region filter is never set by the filter panel. It is modelled as the page applies it.
- Only the fields the core reads are part of the row datatypes.
