# engWord core, modelled in Dafny

engWord is a small English-vocabulary web app. Its logic sits in the event
handlers of three React components, and this project models each of them as a
sequential state machine. The component's `useState` fields become the fields
of a class, and each handler becomes a method that runs as one atomic step.
Every backend query is an input: either the rows it returns or a failure
(`Common.Fetch`).

- **Exam page** (`src/components/Quiz/Quiz.js`, module `Quiz`). A version is
  loaded. Its answers are grouped by question and shuffled (Fisher–Yates over
  a copy, in an array). One choice per question is recorded, and a cursor
  moves within bounds. Grading is refused while a question is unanswered, and
  the page jumps to the first unanswered one. Otherwise the correct picks are
  counted and the session is locked.
- **Word cards** (`src/components/Word/Word.js`, module `WordFeed`). Active
  words are shown in id order, 20 rows per page, without the ids in the
  locally stored completion list. "Load more" is offered while the last page
  came back full. Completing a card removes it at once. A bulk upload skips
  words already in the table, ignoring case and surrounding white space.
- **Exam authoring** (`src/components/Test/Test.js`, module `ExamEditor`).
  This screen edits a version's question list in memory and saves it whole,
  and manages the answers of the selected question. Uploaded sheets pass
  required-field checks. The version list stays sorted and duplicate-free.

Shared modules:
- `Seqs`: order-preserving `Filter`, the model of `Array.prototype.filter`.
- `Text`: ECMAScript `trim` and `toLowerCase`.
- `VersionList`: the `[...new Set(...)].sort()` version list. Code-unit
  order is modelled as lexicographic order on characters. Any two sorted
  permutations are equal (`SortedPermutationUnique`), so the sorting algorithm
  does not matter.

JavaScript truthiness is modelled where the code tests it:
- a choice whose answer id is `0` counts as no choice;
- an empty `engWord` cell is skipped;
- a missing `completedWords` entry reads as `[]`.

The word feed's code behaves as follows, and the model follows it:
- After a failed `resetAndLoad`, `hasMore` stays `true`, because it was set
  to `true` before the fetch (`Feed.ResetAndLoad`).
- A full page whose rows are all completed shows no cards and still offers
  "load more". `hasMore` only checks whether the raw page was full
  (`WordFeed.FullyCompletedPage`).
- Paging is by ascending id; the only filters are `useYn` and the completion
  list.

## Model

| member | source | states |
|---|---|---|
| VersionList.Sort | src/components/Quiz/Quiz.js:25 | `.sort()` yields a sorted permutation of the distinct versions |
| VersionList.SortedPermutationUnique | src/components/Quiz/Quiz.js:25 | two sorted arrangements of the same versions are equal, so any sort gives the same list |
| VersionList.Distinct | src/components/Quiz/Quiz.js:25 | `[...new Set(s)]` holds every value of `s` exactly once and nothing else |
| VersionList.UniqueSorted | src/components/Test/Test.js:31-33 | the fetched version list is strictly sorted (hence duplicate-free) and holds exactly the fetched versions |
| VersionList.StrictlySortedOnce | src/components/Test/Test.js:184-186 | a strictly sorted version list holds each version once |
| VersionList.AddVersion | src/components/Test/Test.js:184-186 | the new list holds the old versions and the saved one; it is unchanged when the version is listed and otherwise sorted and one longer |
| VersionList.AddVersionKeepsListShape | src/components/Test/Test.js:184-186 | after a save, the list stays strictly sorted and gains exactly the saved version; it equals a fresh de-duplicated sort of the old list plus the version |
| Text.TrimStart | src/components/Word/Word.js:137 | `trim` drops only leading white space, and what remains starts with a non-space |
| Text.TrimEnd | src/components/Word/Word.js:137 | `trim` drops only trailing white space, and what remains ends with a non-space |
| Text.Trim | src/components/Test/Test.js:231 | `trim` returns a trimmed string no longer than its input, and leaves a trimmed string unchanged |
| Text.TrimmedResult | src/components/Test/Test.js:231 | `trim` returns a trimmed string and leaves a trimmed string unchanged |
| Text.TrimPadding | src/components/Word/Word.js:144 | trimming white space padding around a trimmed core gives back the core |
| Text.ToLower | src/components/Word/Word.js:137 | `toLowerCase` keeps the length and lowers each character on its own |
| Text.LowerIdempotent | src/components/Word/Word.js:137 | lower-casing twice is lower-casing once |
| Text.LowerKeepsTrimmed | src/components/Word/Word.js:137 | lower-casing a trimmed string leaves it trimmed |
| Text.Normalize | src/components/Word/Word.js:137 | a key is trimmed, no longer than the word, and has no capital A–Z |
| Text.NormalizeIdempotent | src/components/Word/Word.js:137 | the `trim().toLowerCase()` key of a key is itself, so comparing keys is stable |
| Text.NormalizeIgnoresPadding | src/components/Word/Word.js:144 | a padded word has the same key as the word itself |
| Quiz.GroupAnswers | src/components/Quiz/Quiz.js:69-73 | `answersByQ[q]`, read as `[]` when absent, is exactly q's fetched answers in fetch order, so a question without answers gets `[]` |
| Quiz.Shuffle | src/components/Quiz/Quiz.js:75-82 | the in-place Fisher–Yates pass over a copy returns a permutation of its input, for every sequence of random draws in `[0, i]` |
| Quiz.Attach | src/components/Quiz/Quiz.js:84-91 | one question of the `map` gets its own list as `answers` and a permutation of that list as `shuffledAnswers`, with its other fields kept |
| Quiz.AttachAll | src/components/Quiz/Quiz.js:84-91 | each question, in order, is paired with its list from the grouped map and a permutation of that list |
| Quiz.MergedWithGrouping | src/components/Quiz/Quiz.js:85 | reading the lists from a map that groups the answers is reading each question's own answers |
| Quiz.Merge | src/components/Quiz/Quiz.js:84-91 | every fetched question, in order, is paired with its own answers and a permutation of them |
| Quiz.FindAnswer | src/components/Quiz/Quiz.js:140 | `find` returns the first listed answer with the picked id, or nothing when no answer has it |
| Quiz.IsAnswered | src/components/Quiz/Quiz.js:120-121 | a question is answered iff a choice is recorded for its id and that choice is not the falsy id 0 |
| Quiz.Unanswered | src/components/Quiz/Quiz.js:119-123 | the unanswered list holds only questions without a truthy choice, and is empty exactly when every question is answered |
| Quiz.UnansweredExactly | src/components/Quiz/Quiz.js:119-133 | every unanswered question is listed, as often as it occurs, and no other, so the count in the warning is the number of unanswered questions |
| Quiz.IsQuestionCorrect | src/components/Quiz/Quiz.js:178-183 | a question is correct iff its choice is truthy and the first of its answers with the chosen id is marked correct |
| Quiz.EarnsPointWhenAllAnswered | src/components/Quiz/Quiz.js:178-183 | once every question is answered, the grading loop's test and `isQuestionCorrect` accept the same questions |
| Quiz.CorrectCountBounds | src/components/Quiz/Quiz.js:178-183 | the number of correct questions is between 0 and the question count; it equals the count exactly when every question is correct, and is 0 exactly when none is |
| Quiz.EarnsPoint | src/components/Quiz/Quiz.js:137-141 | the loop scores a question iff some choice is recorded and the first answer with that id is marked correct, without the truthiness test; for an answered question it agrees with `isQuestionCorrect` |
| Quiz.CountCorrect | src/components/Quiz/Quiz.js:137-142 | the counting loop counts exactly the questions its test scores, never more than the question count, and, with every question answered, exactly the questions `isQuestionCorrect` accepts |
| Quiz.FindIndexById | src/components/Quiz/Quiz.js:131 | `findIndex` returns the first index with that id, or -1 when there is none |
| Quiz.FirstUnansweredIndex | src/components/Quiz/Quiz.js:129-132 | looking up the id of the first unanswered question gives an unanswered index with every earlier question answered |
| Quiz.ChoiceStyleOf | src/components/Quiz/Quiz.js:162-176 | before grading every answer is selectable; after it, an answer is styled as picked iff it is the chosen one and as correct iff it is marked correct |
| Quiz.FirstFocus | src/components/Quiz/Quiz.js:145 | the results open on the first question's id when there is one and it is truthy, and on nothing otherwise |
| Quiz.ChoiceStyleMatchesGrade | src/components/Quiz/Quiz.js:162-176 | after grading, a question with distinct answer ids is correct iff it is answered and one of its answers is shown as a correct pick; at most one answer is shown as picked |
| Quiz.QuizSession.constructor | src/components/Quiz/Quiz.js:7-16 | the initial state is empty, at index 0, not submitted, with no score |
| Quiz.QuizSession.LoadVersions | src/components/Quiz/Quiz.js:18-31 | on success the version list is the unique sorted fetched versions; on failure it is unchanged |
| Quiz.QuizSession.SelectVersion | src/components/Quiz/Quiz.js:33-102 | choices, cursor, submission, score and focus are reset; an empty version or no questions empties the list; a failed query keeps the old questions; otherwise the questions are the merged ones |
| Quiz.QuizSession.Choose | src/components/Quiz/Quiz.js:111-114 | after grading the choices are frozen; before, only that question's entry changes |
| Quiz.QuizSession.Prev | src/components/Quiz/Quiz.js:116 | the cursor moves back by exactly one unless it is at 0, and stays in bounds |
| Quiz.QuizSession.Next | src/components/Quiz/Quiz.js:117-118 | the cursor moves on by exactly one unless it is at the last question, and stays in bounds |
| Quiz.QuizSession.Submit | src/components/Quiz/Quiz.js:125-147 | with no questions nothing changes; with unanswered questions the cursor goes to the first of them and nothing is graded; otherwise the score is (correct count, question count), the session is locked and the first question is focused |
| Quiz.QuizSession.ShowFirstUnanswered | src/components/Quiz/Quiz.js:129-135 | the cursor lands on an unanswered question with all earlier ones answered |
| Quiz.QuizSession.Grade | src/components/Quiz/Quiz.js:137-145 | the score is the number of correct questions out of all, `submitted` is set, and the focus is the first question's id when truthy |
| Quiz.QuizSession.Reset | src/components/Quiz/Quiz.js:149-159 | everything is cleared and the same version is reloaded and reshuffled; a failed reload leaves no questions |
| WordFeed.RangeRows | src/components/Word/Word.js:62-67 | `.range(from, to)` returns the rows at positions `from`..`to` inclusive, as many as exist, in order |
| WordFeed.ServerPageSlice | src/components/Word/Word.js:58-67 | page k is the slice of the active words from 20k to 20(k+1), cut at the end of the table |
| WordFeed.PageBoundsTile | src/components/Word/Word.js:58-59 | each page asks for exactly 20 rows, and page k+1 starts right after page k ends |
| WordFeed.PagesCoverPrefix | src/components/Word/Word.js:57-67 | the first k pages together are exactly the first 20k active words: no overlap and no gap |
| WordFeed.ShortPageIsLast | src/components/Word/Word.js:73-74 | after a page with fewer than 20 rows, every active word has been fetched |
| WordFeed.FullLastPageCostsOneMoreLoad | src/components/Word/Word.js:73-74 | when the active words fill exactly k+1 pages, page k still claims more, and page k+1 is empty |
| WordFeed.FetchPage | src/components/Word/Word.js:57-76 | a page fails exactly when its query fails; it holds at most 20 items, none of them completed, and a page of 20 items offers more |
| WordFeed.FetchPageItems | src/components/Word/Word.js:70-75 | a page's items are exactly its rows whose id is not completed, no more of them; `hasMore` holds iff the raw page had 20 rows, whatever was filtered out |
| WordFeed.ExcludePages | src/components/Word/Word.js:70-71 | excluding completed ids page by page is excluding them from all fetched rows at once |
| WordFeed.TwentyFiveWords | src/components/Word/Word.js:57-76 | with 25 active words and no completions, page 0 gives the first 20 and more, and page 1 gives the last 5 and no more |
| WordFeed.FullyCompletedPage | src/components/Word/Word.js:70-74 | a full page of completed words gives no items but `hasMore` is true |
| WordFeed.ExcludeOneMore | src/components/Word/Word.js:93-104 | excluding one more id equals removing the cards with that id from what was shown |
| WordFeed.Feed.CompletedIds | src/components/Word/Word.js:25-26 | a missing stored list reads as empty; otherwise it is the stored list |
| WordFeed.Feed.constructor | src/components/Word/Word.js:18-22 | the feed starts empty at page 0 and offers more |
| WordFeed.Feed.ResetAndLoad | src/components/Word/Word.js:34-49 | on success the cards are page 0 minus completed ids, the page is 1 and `hasMore` comes from the fetch; on failure no cards, page 0 and `hasMore` true |
| WordFeed.Feed.BeginLoadMore | src/components/Word/Word.js:78-80 | nothing starts when no more pages are expected or a load is in flight; otherwise a load of the current page starts |
| WordFeed.Feed.FinishLoadMore | src/components/Word/Word.js:81-90 | on success the new items go after the old cards and the page advances by one; on failure cards, page and `hasMore` are unchanged; the in-flight flag clears either way |
| WordFeed.Feed.Complete | src/components/Word/Word.js:93-104 | the id is appended to the stored list even when already there (length +1), and exactly the cards with that id leave the screen, the rest in order |
| WordFeed.DrainedFeedShowsAll | src/components/Word/Word.js:57-91 | loading pages until one comes back short shows every active, not completed word of the table, in id order |
| WordFeed.Feed.Upload | src/components/Word/Word.js:123-162 | the upload follows the plan below; the feed starts over only after a successful insert, with the full state of `resetAndLoad` on its success and on its failure |
| WordFeed.NewWords | src/components/Word/Word.js:141-145 | the new words are no more than the sheet rows, and each has a truthy word whose key is not taken |
| WordFeed.PlanUpload | src/components/Word/Word.js:123-150 | an empty sheet and a failed lookup are refused, in that order; an insert is never empty and holds only truthy words with untaken keys |
| WordFeed.ExistingKeys | src/components/Word/Word.js:133-138 | the existing keys are exactly the trimmed, lower-cased forms of the truthy existing words |
| WordFeed.UploadInsertsExactlyNewWords | src/components/Word/Word.js:141-150 | the inserted rows are exactly the sheet rows with a word that no existing word matches after trim and lower-casing; when none is left the upload is refused |
| WordFeed.SheetDuplicatesAreKept | src/components/Word/Word.js:141-145 | sheet rows are not compared with each other: a new word present in the sheet makes the upload an insert, and every copy of it is inserted and no copy of any other row |
| WordFeed.UploadIgnoresCaseAndPadding | src/components/Word/Word.js:133-145 | a sheet word with the trimmed, lower-cased key of an existing word, whatever its padding or capitals, is not inserted |
| ExamEditor.WithQuestionId | src/components/Test/Test.js:138-141 | an answer row keeps every sheet field and gets the selected question's id as `questionId` |
| ExamEditor.TagAnswers | src/components/Test/Test.js:138-141 | every sheet row, in order, is tagged with the question id |
| ExamEditor.SaveRow | src/components/Test/Test.js:174-178 | a saved row has only `question`, `etc` (when present) and `version` |
| ExamEditor.SavePayload | src/components/Test/Test.js:174-178 | one saved row per question, in order |
| ExamEditor.SavePayloadDropsIds | src/components/Test/Test.js:174-178 | no saved row carries an id, stored or temporary, and every one carries the version |
| ExamEditor.DropAnswer | src/components/Test/Test.js:223 | no remaining answer has the deleted id, and none is added |
| ExamEditor.DropAnswerExactly | src/components/Test/Test.js:223 | deleting an answer keeps exactly the answers with another id; deleting it twice is deleting it once |
| ExamEditor.RemoveAt | src/components/Test/Test.js:247 | removing index i drops exactly that element: length -1, the others in order, the same multiset minus the removed row |
| ExamEditor.Decimal | src/components/Test/Test.js:236 | `String(n)` is a non-empty string of decimal digits without a leading zero, one digit exactly for n < 10, whose value is n |
| ExamEditor.DecimalInjective | src/components/Test/Test.js:236 | different clock readings are written differently |
| ExamEditor.TempId | src/components/Test/Test.js:236 | a temporary id is `temp-` followed by decimal digits that denote the clock reading |
| ExamEditor.TempIdsDistinct | src/components/Test/Test.js:235-236 | temporary ids made at different instants differ, and none equals a numeric backend id |
| ExamEditor.DraftRow | src/components/Test/Test.js:236 | the added question row holds the form's text and the temporary id, and nothing else |
| ExamEditor.AnswerDraftRow | src/components/Test/Test.js:205 | the inserted answer row holds the form's fields and the selected question's id |
| ExamEditor.Editor.constructor | src/components/Test/Test.js:7-18 | the editor starts with no version, no lists, no selection and blank forms |
| ExamEditor.Editor.LoadVersions | src/components/Test/Test.js:27-38 | on success the version list is exactly the fetched versions, unique and sorted; on failure it is unchanged |
| ExamEditor.Editor.TypeVersion | src/components/Test/Test.js:270 | typing a version changes only the version |
| ExamEditor.Editor.SelectVersion | src/components/Test/Test.js:40-61 | selection and answers are cleared; an empty version empties the questions; otherwise they are the fetched ones, or unchanged on failure |
| ExamEditor.Editor.SelectQuestion | src/components/Test/Test.js:63-75 | the question becomes the selection; its answers are fetched, and the old ones stay on failure |
| ExamEditor.HasFields | src/components/Test/Test.js:109-112 | a row passes the required-field check iff it has every listed field |
| ExamEditor.Editor.UploadQuestions | src/components/Test/Test.js:103-121 | an empty sheet or a first row without `question` and `etc` is refused; otherwise the rows go after the existing questions |
| ExamEditor.Editor.UploadAnswers | src/components/Test/Test.js:103-148 | refused for an empty sheet, no selection, or a first row missing `answer`, `correctYn` or `etc`; otherwise every row is sent tagged with the question id, and the returned rows are appended |
| ExamEditor.Editor.Save | src/components/Test/Test.js:163-191 | refused without a version or questions; the payload is the questions projected in order; after a successful insert the version joins the list and the version is reloaded, keeping the questions in memory when the reload fails |
| ExamEditor.Editor.Saved | src/components/Test/Test.js:184-187 | after a successful insert the list becomes the old list with the version added (sorted, once), and the version is selected again; a failed reload leaves the questions as they were |
| ExamEditor.Editor.TypeAnswer | src/components/Test/Test.js:508-535 | the answer form holds what was typed |
| ExamEditor.Editor.AddAnswer | src/components/Test/Test.js:193-214 | refused without a selection or with empty answer text; otherwise the draft is sent with the question id, and on success the returned rows are appended and the form is cleared |
| ExamEditor.Editor.DeleteAnswer | src/components/Test/Test.js:216-228 | after a successful delete, exactly the answers with another id remain, in order |
| ExamEditor.Editor.TypeQuestion | src/components/Test/Test.js:380-396 | the question form holds what was typed |
| ExamEditor.Editor.AddQuestion | src/components/Test/Test.js:230-239 | text that is empty after trimming is refused; otherwise exactly one row with a temporary id goes at the end and the form is cleared |
| ExamEditor.Editor.DeleteQuestion | src/components/Test/Test.js:241-249 | exactly the row at the index is removed; the selection and answers are cleared iff the removed row's id equals the selected one's |

## Left out

- Backend calls are inputs: rows or a failure. The model does not cover their
  row-level effects, such as `handleSave` deleting the version's questions
  before inserting the new ones even when the insert then fails. It also does
  not cover the order in which the backend returns rows: the word table is
  passed in ascending id order.
- `Math.random` is an oracle of draws (`roll`). `Date.now()` is a `stamp`
  parameter. `localStorage` is the `stored` field of the feed, and its JSON
  encoding is not modelled.
- `FileReader` and XLSX parsing are not modelled: a sheet is its parsed rows.
  Cell values are text (`WordFeed.SheetRow`) or `ExamEditor.Scalar`. The
  `String(...)` conversion of a numeric word cell is not modelled.
- Toasts are not modelled; handlers return a notice value instead. The
  `loading` and `uploading` flags, clearing of the file inputs, and the
  `progress` percentage (floating point) are also not modelled.
- JSX rendering is not modelled, apart from `getChoiceClass`
  (`Quiz.ChoiceStyleOf`). Clicking a question in the results
  (`setResultFocusQid`) is not modelled.
- Async interleavings and stale responses are not modelled: each handler is
  one atomic step. The one exception is `loadMore`, which is split into its
  synchronous start (`BeginLoadMore`) and its completion
  (`FinishLoadMore`), because the in-flight guard matters.
- Text.ToLower: lower-cases `A`–`Z` only, not the other Unicode letters
  `toLowerCase` maps.
- VersionList.Sort: compares whole characters, whereas JavaScript's default
  sort compares UTF-16 code units. The two orders differ only for characters
  outside the Basic Multilingual Plane.
- `src/App.js`, `src/components/Login/Login.js`,
  `src/components/common/Navbar.js`,
  `src/components/common/ProtectedRoute.js`,
  `src/components/Word/FlipCard.js` and `src/utils/notification.js` are not
  part of this model. They hold routing, authentication, the card flip
  animation and toasts.
