# Quiz app core, modelled in Dafny

This project models the logic core of a browser quiz app. The app has three parts:

- a multiple-choice quiz engine (script.js);
- a PDF viewer for practice documents (js/pdf-viewer.js);
- the document catalogue and browser-support helpers beside them (js/utils.js).

The files and modules:

- `shuffle.dfy` (`Shuffle`): the seeded Fisher–Yates shuffle of `shuffleQuestions`. It is specified on sequences and run in place on an array.
- `questions.dfy` (`Questions`): the question records and the answer shuffle with its parallel `shuffledIndices` map. It also holds the lookup that marks the correct displayed option, and the whole `shuffleQuestions` pass.
- `pagination.dfy` (`Pagination`): twenty questions a page. It covers the page count, the previous and next moves, the rendered index range and the button flags.
- `results.dfy` (`Results`): the accuracy percentage of the results summary.
- `session_state.dfy` (`SessionState`): the per-module counters and answer bookkeeping. It also holds the `quizProgress_<module>` record, with save, load, the seven-day expiry and reset.
- `quiz_session.dfy` (`QuizApp`): the class `QuizSession`. Its fields are the closure variables of the page script. Its methods are the handlers, and each one keeps the session invariant `Valid()`.
- `pdf_viewer.dfy` (`PdfView`): the class `PdfViewer`, covering the following.
  - The page cursor, the single pending render slot and the toolbar flags.
  - The download name.
  - Each promise continuation of pdf.js is a method of its own, and callers may invoke them in any order.
- `documents.dfy` (`DocumentUtils`): the constant catalogue and the `openDocument` search loop. It also holds the `viewPdfInPage` download name and the missing-feature list of `checkBrowserSupport`.
- `seqs.dfy`, `js_text.dfy`, `options.dfy`: the order-preserving filter, the `\w` and `\s` character classes, and `Option`.

The environment is modelled as follows:

- The draw `Math.floor(seededRandom(seed++) * (i + 1))` becomes a generator: any function from the counter value and the position `i` to a natural number. The swap index is that number modulo `i + 1`. Every shuffle property holds whatever the generator is, and a generator that already yields a value in `[0, i]`, as the source's draw does, is drawn unchanged (`Shuffle.EveryChoiceIsDrawn`).
- The current time is an integer number of milliseconds, passed as a parameter.
- `localStorage` is a map from keys to stored entries. An entry is either a readable record or one that `JSON.parse` rejects.
- The confirmations of `resetProgress` and `restartQuiz` are boolean parameters.

## Model

| member | source | states |
|---|---|---|
| Shuffle.Draw | script.js:271-272 | the swap partner drawn for position `i` lies in `[0, i]` |
| Shuffle.EveryChoiceIsDrawn | script.js:272 | any choice of swap partner in `[0, i]` made from the counter value and the position, such as `Math.floor(seededRandom(seed++) * (i + 1))`, is exactly what `Draw` yields for it, so the shuffle properties cover that draw |
| Shuffle.Swap | script.js:273 | definition of the destructuring swap; `SwapPermutes`, `SwapTracks` and `SwapAt` state its properties |
| Shuffle.Passes | script.js:271-274 | definition of the loop from position `i` down to 1, one counter value a pass; `PassesPermutes`, `PassesTrack` and `PassesKeepDistinct` state its properties |
| Shuffle.FisherYates | script.js:268-274 | definition of the whole shuffle of a list, from a given counter value; `FisherYatesPermutes`, `FisherYatesTracksOrigin` and `FisherYatesKeepsDistinct` state its properties |
| Shuffle.SwapPermutes | script.js:273 | the destructuring swap keeps the length and the multiset |
| Shuffle.PassesPermutes | script.js:271-274 | the loop's passes keep the length and the multiset |
| Shuffle.FisherYatesPermutes | script.js:268-274 | the question shuffle returns a permutation of the module's questions |
| Shuffle.SwapTracks | script.js:283-284 | swapping the same positions of the answers and the indices keeps "answer `k` is original answer `indices[k]`" |
| Shuffle.PassesTrack | script.js:281-285 | the parallel passes keep that position map |
| Shuffle.FisherYatesTracksOrigin | script.js:278-285 | shuffling the answers and `[0, 1, 2, 3]` with the same draws gives `shuffledAnswers[k] == answers[shuffledIndices[k]]` |
| Shuffle.PassesKeepDistinct | script.js:281-285 | the passes never duplicate an element |
| Shuffle.FisherYatesKeepsDistinct | script.js:279-285 | a shuffled list of distinct entries stays distinct, so `shuffledIndices` stays a permutation of `[0, 1, 2, 3]` |
| Shuffle.ShuffleInPlace | script.js:271-274 | the in-place loop leaves the array equal to the Fisher–Yates shuffle of its old contents; it returns the counter advanced by `n - 1` draws |
| Shuffle.SwapAt | script.js:273 | the in-place swap of two array cells is `Swap` of the old contents |
| Questions.IsCorrect | script.js:324-325 | definition: a displayed option is correct when the letter of its original index is the correct letter; `ExactlyOneCorrect` states its property |
| Questions.Decorate | script.js:277-286 | definition: a question with its answers and `[0, 1, 2, 3]` shuffled by the same draws; `DecorateConsistent` states its property |
| Questions.ShuffledBank | script.js:259-287 | definition: the questions shuffled, then each question's answers, the counter running on; `ShuffledBankFacts` and `BankAt` state its properties |
| Questions.DecoratePrefix | script.js:277-286 | the answer shuffles of the first `n` questions form a list of length `n` |
| Questions.DecoratePrefixAt | script.js:277-286 | entry `k` is question `k` shuffled from counter value `seed + 3 * k`: the counter runs on from one question to the next |
| Questions.DecorateConsistent | script.js:278-285 | after the answer shuffle, `shuffledIndices` is a permutation of `[0, 1, 2, 3]` and each displayed answer is the original answer at its index |
| Questions.ExactlyOneCorrect | script.js:319-325 | exactly one displayed option is marked correct when the correct letter is one of A to D, and none otherwise |
| Questions.ShuffledBankFacts | script.js:259-287 | `shuffleQuestions` keeps every question of the module exactly once (a multiset equality), and every displayed question is consistent |
| Questions.BankAt | script.js:268-286 | entry `k` of the shuffled list is the answer shuffle of entry `k` of the shuffled order, which is one of the module's questions |
| Questions.BankEntryConsistent | script.js:277-286 | each entry of the shuffled list is consistent |
| Questions.ShuffleKeepsWellFormed | script.js:268-274 | the shuffled order holds only four-answer questions |
| Questions.SeedOf | script.js:261 | definition of the seed, the code point of the module name's last character; `ShuffleDependsOnLastCharacter` states its property |
| Questions.ShuffleDependsOnLastCharacter | script.js:261 | the shuffle is a function of the question list and the last character of the module name: two names ending alike give the same result |
| Questions.ShuffleAnswers | script.js:278-285 | the answers and `[0, 1, 2, 3]`, copied into two fresh arrays and shuffled in parallel, give exactly `Decorate` of the question; three counter values are used |
| Questions.ShuffleInParallel | script.js:281-285 | the loop leaves the answers and the index map equal to the Fisher–Yates shuffles of their old contents with the same draws, and uses three counter values |
| Questions.ShuffleAllAnswers | script.js:277-286 | the `forEach` produces the answer shuffles of the list in order and uses three counter values a question |
| Questions.ShuffleOrderAnswers | script.js:270-286 | the answer pass that follows the question pass completes `ShuffledBank` |
| Questions.ShuffleQuestions | script.js:259-287 | a copy of the module's questions shuffled in place and then answer-shuffled is exactly `ShuffledBank` seeded by the last character of the module name |
| Pagination.TotalPages | script.js:422 | `Math.ceil(n / 20)`: the least page count whose pages hold `n` questions |
| Pagination.PrevPage | script.js:410-418 | definition: one page back unless on page 1; `NavigationKeepsPageValid` and `NavigationInverse` state its properties |
| Pagination.NextPage | script.js:421-430 | definition: one page on unless on the last page; `NavigationKeepsPageValid` and `NavigationInverse` state its properties |
| Pagination.NavigationKeepsPageValid | script.js:410-430 | previous and next keep the cursor on page 1 or on a page that exists |
| Pagination.NavigationInverse | script.js:410-430 | a move that is not a no-op is undone by the opposite move |
| Pagination.PageRange | script.js:292-293 | the rendered range `[(p - 1) * 20, min(p * 20, n))` lies inside `[0, n)` on a valid page and never holds more than 20 indices |
| Pagination.PageOfIndex | script.js:292-295 | index `i` is rendered on page `p` iff `p == i / 20 + 1`, and that page is valid |
| Pagination.DisplayedIndices | script.js:292-299 | a page shows exactly the question indices that belong to it |
| Pagination.PageIndicesOnPage | script.js:295-299 | each index a page renders is a question of that page |
| Pagination.PageCoversIndices | script.js:295-299 | every question of a page is rendered on it |
| Pagination.ButtonsAsWritten | script.js:437-438 | definition of the flags as written, with `currentPage === totalPages`; `NextEnabledOnEmptyModule` and `ButtonsAgreeOnNonEmptyModules` state its properties |
| Pagination.Buttons | script.js:437-438 | definition of the flags with the last-page test `>=`; `ButtonsDisabledIffNoOp` states its property |
| Pagination.NextEnabledOnEmptyModule | script.js:433-438 | as written, an empty module on page 1 of 0 pages leaves the next button enabled although the move does nothing |
| Pagination.ButtonsDisabledIffNoOp | script.js:437-438 | with the last-page test as `>=`, a button is disabled exactly when its move would do nothing |
| Pagination.ButtonsAgreeOnNonEmptyModules | script.js:437-438 | both tests agree on every valid page of a non-empty module |
| Results.Accuracy | script.js:508-511 | 0 while nothing is answered; otherwise `100 * correct / answered` rounded half up |
| Results.AccuracyIsPercentage | script.js:508-511 | the rate never exceeds 100 and is 100 when every answer is correct |
| Results.AccuracyMonotonic | script.js:508-511 | more correct answers out of the same number never lower the rate |
| SessionState.InitialCoherent | script.js:210-217 | the reset counters are coherent for any module |
| SessionState.Answer | script.js:361-384 | definition of the counters after a selection; `AnsweredUnchanged`, `AnswerOnce`, `AnswerEffect` and `AnswerKeepsCoherent` state its properties |
| SessionState.AnsweredUnchanged | script.js:363 | selecting any option for a question already answered leaves every counter as it was |
| SessionState.AnswerOnce | script.js:363 | a second selection for the same question changes nothing: the first one stands |
| SessionState.AnswerEffect | script.js:368-384 | an unanswered question joins the answered set, which otherwise keeps its members, and its option is recorded while every other recorded option stays; score and correct count rise together, by one, exactly when an unanswered question is answered correctly; the page never moves |
| SessionState.AnswerKeepsCoherent | script.js:361-384 | answering keeps `score == correctAnswersCount <= |answeredQuestions|` and the answer map in step with the answered set |
| SessionState.ScoreBounded | script.js:503-506 | correct answers never exceed answered ones, and answered ones never exceed the questions |
| SessionState.Key | script.js:162 | the key is `quizProgress_` followed by the module name |
| SessionState.KeyInjective | script.js:162 | different modules never share a key |
| SessionState.Restore | script.js:181-185 | definition of the counters read from a record, with `currentPage || 1` turning page 0 into 1; `SaveThenLoad` and `LoadFoundCoherent` state its properties |
| SessionState.Expired | script.js:190-195 | definition: more than seven days, in milliseconds, since the record was saved; `SaveThenLoadExpired` states its property |
| SessionState.Snapshot | script.js:153-160 | definition of the record `saveProgress` builds from the counters and the time; `SaveThenLoad` states its property |
| SessionState.Save | script.js:151-162 | definition: the record stored under the module's key; `SaveThenLoad`, `SaveOtherModule` and `SaveKeepsStorageCoherent` state its properties |
| SessionState.Load | script.js:175-207 | definition of `loadProgress`: counters, storage and result; `SaveThenLoad`, `SaveThenLoadExpired`, `RemoveThenLoad` and `LoadFoundCoherent` state its properties |
| SessionState.Remove | script.js:211 | definition: the module's key removed; `RemoveThenLoad` and `RemoveKeepsStorageCoherent` state its properties |
| SessionState.SaveThenLoad | script.js:151-200 | saving and loading within seven days restores every counter and reports true |
| SessionState.SaveThenLoadExpired | script.js:190-198 | progress older than seven days is removed, every counter is reset, and false is reported |
| SessionState.RemoveThenLoad | script.js:175-211 | after a reset nothing is found and the counters are left as they are |
| SessionState.SaveOtherModule | script.js:151-207 | saving one module does not change what loading another module does |
| SessionState.SaveKeepsStorageCoherent | script.js:151-162 | saving coherent counters keeps every stored record coherent |
| SessionState.RemoveKeepsStorageCoherent | script.js:210-211 | removing a record keeps the storage coherent |
| SessionState.LoadFoundCoherent | script.js:175-200 | a record loaded from coherent storage gives coherent counters |
| SessionState.LoadKeepsStorageCoherent | script.js:175-207 | loading keeps the storage coherent |
| QuizApp.QuizSession.constructor | script.js:6-15 | no module, no questions, zeroed counters on page 1, and the session invariant |
| QuizApp.QuizSession.SaveProgress | script.js:151-172 | the counters are stored under the current module's key; nothing else changes |
| QuizApp.QuizSession.ResetModuleProgress | script.js:210-217 | the module's record is removed and the counters zeroed |
| QuizApp.QuizSession.LoadProgress | script.js:175-207 | the counters, storage and result are those of `Load`: assigned before the age check, reset when expired, untouched when missing or unreadable |
| QuizApp.QuizSession.StartQuiz | script.js:228-256 | an unknown module changes nothing; otherwise the module becomes current with its shuffled list, and the counters are the saved ones if found or else reset; the invariant holds |
| QuizApp.QuizSession.SelectModule | script.js:237-239 | the module becomes current and its shuffled list is `ShuffledBank` of its questions |
| QuizApp.QuizSession.RestoreProgress | script.js:242-251 | the saved progress is loaded, and the counters are reset when none was found |
| QuizApp.QuizSession.ResetProgress | script.js:220-225 | on confirmation the record is removed and the quiz restarted from zeroed counters; otherwise nothing changes |
| QuizApp.QuizSession.HandleAnswerSelection | script.js:361-389 | the counters become `Answer` of the old ones with the option's correctness; the state is saved only when the question was unanswered; the invariant holds |
| QuizApp.QuizSession.RecordAnswer | script.js:368-384 | the counter updates for an unanswered question keep the invariant |
| QuizApp.QuizSession.NavigateToPreviousPage | script.js:410-418 | one page back and a save, unless on page 1 |
| QuizApp.QuizSession.NavigateToNextPage | script.js:421-430 | one page on and a save, unless on the last page |
| QuizApp.QuizSession.RestartQuiz | script.js:470-477 | on confirmation back to page 1 with the answers kept; nothing is saved |
| QuizApp.QuizSession.PaginationButtons | script.js:433-439 | the flags as written: prev is disabled iff the move back does nothing; a disabled next never hides a move, and on a module with questions next is disabled iff the move does nothing |
| QuizApp.QuizSession.DisplayedQuestions | script.js:290-299 | every rendered index is a question of the module |
| QuizApp.QuizSession.ResultsSummary | script.js:503-513 | the figures are the question count, the answered count and the correct count; answered never exceeds the total, correct never exceeds answered, and the accuracy is at most 100 |
| QuizApp.LoadedSessionOk | script.js:242-251 | the counters that loading or the reset leaves are coherent, and so is the storage |
| QuizApp.StartedListFacts | script.js:237-239 | a started module's shuffled list has one entry per question, each with four indices |
| PdfView.PrevTarget | js/pdf-viewer.js:198-204 | definition: the page `onPrevPage` moves to; `TargetsStayOnPage` and `TargetsInverse` state its properties |
| PdfView.NextTarget | js/pdf-viewer.js:209-215 | definition: the page `onNextPage` moves to; `TargetsStayOnPage` and `TargetsInverse` state its properties |
| PdfView.PageInfoFlags | js/pdf-viewer.js:318-320 | definition of the flags `updatePageInfo` sets; `PageInfoFlagsIffNoOp` states its property |
| PdfView.EnabledControls | js/pdf-viewer.js:326-333 | definition of the flags `enableControls` sets; `EnabledControlsFacts` states its properties |
| PdfView.IsNameChar | js/pdf-viewer.js:305 | definition of the characters `[\w\-]` a download name keeps; `Sanitize` states its property |
| PdfView.TargetsStayOnPage | js/pdf-viewer.js:198-215 | previous and next keep the cursor within `[1, numPages]` |
| PdfView.TargetsInverse | js/pdf-viewer.js:198-215 | a move that is not a no-op is undone by the opposite move |
| PdfView.PageInfoFlagsIffNoOp | js/pdf-viewer.js:315-321 | with a document loaded, prev is disabled iff `pageNum <= 1` would make `onPrevPage` a no-op, and likewise for next |
| PdfView.EnabledControlsFacts | js/pdf-viewer.js:326-333 | `enableControls(false)` disables every button there is; `enableControls(true)` enables zoom and download and sets prev and next by the page |
| PdfView.Sanitize | js/pdf-viewer.js:305 | every character outside `[A-Za-z0-9_-]` becomes `_`, and nothing else changes |
| PdfView.SanitizeIdempotent | js/pdf-viewer.js:305 | sanitizing a sanitized title changes nothing |
| PdfView.SanitizeIdentity | js/pdf-viewer.js:305 | a title is kept as it is exactly when it has nothing to replace |
| PdfView.DownloadName | js/pdf-viewer.js:305 | the name is the sanitized title followed by `.pdf`, so every character before `.pdf` is safe |
| PdfView.PdfViewer.constructor | js/pdf-viewer.js:7-38 | no document, page 1, no render, nothing pending |
| PdfView.PdfViewer.BeginLoad | js/pdf-viewer.js:99-108 | the URL and title are recorded; the cursor is untouched |
| PdfView.PdfViewer.LoadSucceeded | js/pdf-viewer.js:117-125 | a loaded document of `n` pages puts the cursor on page 1 and starts its render; the pending slot is left as it was |
| PdfView.PdfViewer.LoadSucceededClearingPending | js/pdf-viewer.js:117-125 | the load with the pending slot cleared: page 1 of the new document, its render started, and the page invariant `Valid()` holds after any successful load |
| PdfView.PdfViewer.LoadFailed | js/pdf-viewer.js:131-135 | a failed load disables the controls and leaves the rest as it was |
| PdfView.PdfViewer.ShowError | js/pdf-viewer.js:365-386 | showing an error disables the controls |
| PdfView.PdfViewer.EnableControls | js/pdf-viewer.js:326-333 | the flags become `EnabledControls` of the current page and document |
| PdfView.PdfViewer.UpdatePageInfo | js/pdf-viewer.js:315-321 | prev and next flags set from the page; the other flags untouched |
| PdfView.PdfViewer.RenderCurrentPage | js/pdf-viewer.js:142-149 | nothing without a document; otherwise a render of the current page starts |
| PdfView.PdfViewer.RenderSucceeded | js/pdf-viewer.js:174-187 | `pageRendering` is cleared; without a pending page nothing else changes; with one, it becomes current, the slot is cleared, its render starts and prev and next are set for it, the other controls kept |
| PdfView.PdfViewer.RenderFailed | js/pdf-viewer.js:188-192 | `pageRendering` is cleared and the controls disabled; the pending slot stays |
| PdfView.PdfViewer.QueueRenderPage | js/pdf-viewer.js:234-240 | while a render is in flight the current page overwrites the pending slot and nothing else changes; otherwise a render starts, prev and next are set for the page and the other controls kept |
| PdfView.PdfViewer.OnPrevPage | js/pdf-viewer.js:198-204 | no-op without a document or on page 1; otherwise one page back, queued behind a render in flight with the controls kept, or rendered at once with prev and next set for the new page |
| PdfView.PdfViewer.OnNextPage | js/pdf-viewer.js:209-215 | no-op without a document or on the last page; otherwise one page on, queued behind a render in flight with the controls kept, or rendered at once with prev and next set for the new page |
| PdfView.PdfViewer.DownloadPdf | js/pdf-viewer.js:300-310 | nothing without a URL or with an empty title; otherwise the URL under `DownloadName(title)` |
| PdfView.StalePendingOutlivesLoad | js/pdf-viewer.js:117-124 | a page queued for a two-page document survives the load of a one-page document, and the next finished render moves the cursor to page 2 of 1 |
| PdfView.ClearedPendingStaysOnPage | js/pdf-viewer.js:117-124 | the same events with the corrected load leave the cursor on page 1 of 1 |
| DocumentUtils.AllDocs | js/utils.js:200 | a document is among all entries iff some category holds it |
| DocumentUtils.CatalogueWellFormed | js/utils.js:84-104 | the catalogue has 15 entries with pairwise distinct ids, and every path starts with `docs/` and ends with `.pdf` |
| DocumentUtils.PathsOk | js/utils.js:84-104 | every path of a category starts with `docs/` and ends with `.pdf` |
| DocumentUtils.FindFirst | js/utils.js:201 | `find` returns nothing iff no entry has the id, and otherwise the first entry with it |
| DocumentUtils.LastMatch | js/utils.js:199-203 | definition of what the loop leaves in `foundDoc`; `LastMatchSome`, `LastMatchWhich` and `FindDocument` state its properties |
| DocumentUtils.LastMatchSome | js/utils.js:199-203 | the loop finds a document iff some category has an entry with the id |
| DocumentUtils.LastMatchWhich | js/utils.js:199-203 | the document found has the id and comes from the last category that has one |
| DocumentUtils.FindDocument | js/utils.js:197-203 | the `forEach` loop leaves `LastMatch` of the categories in `foundDoc` |
| DocumentUtils.ViewDownloadName | js/utils.js:242 | the name is the title with every character other than word characters and whitespace dropped, followed by `.pdf` |
| DocumentUtils.ViewDownloadNameFacts | js/utils.js:242 | the kept part is the title iff nothing is dropped, and the filter is idempotent |
| DocumentUtils.ViewPdfInPage | js/utils.js:230-246 | definition of what `viewPdfInPage` hands on: the path loaded under the default title, and the path and name of the download handler; `ViewDownloadNames` states its properties |
| DocumentUtils.ViewDownloadNames | js/utils.js:230-246 | the in-page handler saves the path under `ViewDownloadName(title)`, the viewer offers `Document.pdf`, and the two names agree iff the title's kept characters spell `Document` |
| DocumentUtils.OpenDocument | js/utils.js:195-213 | true iff some category has an entry with the id; when true, a catalogue entry with exactly that id is opened |
| DocumentUtils.FoundIsListed | js/utils.js:199-206 | the search finds a document iff some category lists the id, and what it finds is a listed document with that id |
| DocumentUtils.Features | js/utils.js:45-49 | definition of the three probed flags in key order; `MissingInKeyOrder` and `CheckBrowserSupport` state its properties |
| DocumentUtils.MissingFeatures | js/utils.js:51 | a key is listed iff its flag is false |
| DocumentUtils.CheckBrowserSupport | js/utils.js:44-59 | false exactly when some feature is missing |
| DocumentUtils.MissingInKeyOrder | js/utils.js:45-51 | the missing list names the absent features in key order |
| DocumentUtils.MissingOfThree | js/utils.js:51 | filtering three flags keeps the absent keys in their order |
| Seqs.Filter | js/utils.js:51 | `filter` keeps exactly the elements that pass, and never adds any |

## Left out

- `seededRandom`'s sine formula is not modelled. The draw is any function of the counter value and the position, reduced modulo `i + 1`; the properties do not depend on which function it is.
- Floating-point displays are not modelled: the progress bar, the module completion percentage, and the viewer's zoom and scale. The accuracy is computed on integers, so it may differ from `Math.round` on a float that lands within rounding error of an exact half.
- Time is an integer number of milliseconds, passed in. Date parsing, `toISOString`, and an invalid stored date (whose comparison is false in JavaScript) are not modelled.
- `JSON.stringify`/`JSON.parse` and the `localStorage` calls are not modelled. Storage is a map, and an unreadable value is one `Corrupt` entry. Quota errors on saving are not modelled either.
- `exportResults` is not modelled.
- DOM construction, keyboard shortcuts, toasts, `alert` and `confirm` are not modelled; a confirmation is a boolean parameter. Fullscreen, animations, the canvas and the pdf.js calls are not modelled either.
- The asynchronous interleavings of the viewer are not modelled as such. Each promise continuation is a method that may be called at any time.
- The answered set is stored as a set. The order `Array.from` gives it is not modelled.
- The question objects that `shuffleQuestions` mutates, and the aliasing between the bank and the shuffled list, are not modelled. The model returns new records instead.
- The question bank is assumed to have non-empty module names and four answers per question (`BankOk`). The name's last character code seeds the shuffle, and `shuffledIndices` starts as the literal `[0, 1, 2, 3]`. An empty name (a NaN seed) or another answer count is not modelled.
- Questions.ShuffleAnswers, Questions.ShuffleQuestions: require four-answer questions and a non-empty module name, for the same reason.
- Stored records are assumed coherent with their module (`StorageCoherent`): a record written by this code always is. A record from elsewhere, for example one with a page past the last, is outside the model, and the session invariant cannot hold for it.
- The viewer's initial button markup is a constructor parameter. The download button is assumed present, and the fullscreen button is optional.
- The download button gets two click handlers: the viewer's own listener, and the `onclick` that `viewPdfInPage` installs. Both fire. The model gives both names and relates them (`DocumentUtils.ViewDownloadNames`) but does not model the two downloads one click starts.
- `viewPdfInPage` calls `window.loadPdf(path)` without a title, so the viewer shows the default title `Document` rather than the title passed in (`DocumentUtils.ViewDownloadNames`).
- PdfView.PdfViewer.LoadSucceeded: promises the page invariant only when the pending slot is empty or fits the new document, because as written a request queued for the previous document survives the load (see Findings).
- A character outside the Basic Multilingual Plane is two UTF-16 code units in JavaScript, so `replace` turns it into two underscores. The model works on characters and turns it into one.
- Questions.SeedOf: the seed is the code point of the module name's last character, where `charCodeAt(length - 1)` gives the last UTF-16 code unit; the two differ for a name ending outside the Basic Multilingual Plane (the source seeds from the low surrogate). No shuffle property depends on the seed's value.
- `increaseScore` and `resetScore` are modelled inline, as the score updates of the handlers that call them.
- js/document-browser.js and the root utils.js are not part of this model.

## Findings

| source | as written | input that shows it | evidently intended | confidence | as-written member | corrected member |
|---|---|---|---|---|---|---|
| script.js:438 | `nextPageBtn.disabled = currentPage === totalPages` | a module with no questions: page 1 of 0 pages, so the next button stays enabled although `navigateToNextPage` does nothing | disabled whenever the move is a no-op, `currentPage >= totalPages` | not executed | Pagination.NextEnabledOnEmptyModule | Pagination.ButtonsDisabledIffNoOp |
| js/pdf-viewer.js:124 | `this.pageNum = 1` without clearing `pageNumPending` | load a two-page document, request page 2 while its first render is in flight, then load a one-page document: when the first render settles the cursor moves to page 2 of 1 | the pending request dropped on a successful load | not executed | PdfView.StalePendingOutlivesLoad | PdfView.PdfViewer.LoadSucceededClearingPending |
