# Assessment dashboard — a Dafny model

This project models the core of a small recruiting dashboard. Recruiters schedule
assessments, such as tests and interviews. Candidates take a timed attempt at an
assessment, and authors keep a bank of questions. The model covers five parts:

- **The three in-memory services** (candidates, assessments, questions), each over its
  own array of records. The shared `findIndex` / spread-update / `splice` logic is
  defined once in `Store`. Each service adds its own "not found" message, id prefix
  and creation defaults.
- **The timed attempt.** This has two parts:
  - The live-assessment panel (`LiveAssessment`) and the older inline feature
    (`MainFeature`), with the countdown tick, navigation, answer recording, scoring
    and write-back of the completed candidate.
  - The shared pieces: `Timer`, `Navigation`, `Answers`, `Scoring`.
  - The `M:SS` countdown label (`TimerDisplay`).
- **The dashboard counters** shown on both dashboard pages (`Stats`).
- **The dashboard page** hosting the live panel (`HomePage`): tabs, theme, selection,
  the candidate-update callback, and the condition for showing the live panel.
- **The question-bank page** (`QuestionBank`): form validation, the data it saves,
  editing, deleting, option editing, and the label of a question type.

Modelling choices:

- **Records and updates.** Records are immutable datatypes. An update object
  `{ ...stored, ...patch }` is a patch datatype with one `Option` per key; `Some` means
  the key is present.
- **Services and handlers as functions.** Each service call is a pure function from
  the stored array to a `Reply` holding the new array and either the result or
  `Err(message)`, which models the thrown `Error`. Each page handler is a function from
  the page state (plus the service arrays it writes) to the next state.
- **Clock and delays.** `Date.now()` is a `now` parameter. The random artificial delay
  is not modelled.
- **Countdown.** The one-second interval is a `Tick` function, and `RunTicks` applies
  it `k` times.

Behaviour of the code worth knowing:

- **Scoring compares possibly-undefined values.** `answers[q.id] === q.correctAnswer`
  is true when both sides are `undefined`. An unanswered question without a
  `correctAnswer` therefore counts as correct
  (`Scoring.UnansweredWithoutKeyIsCorrect`).
- **An assessment without questions.** The panel still renders it. Its progress is
  `1 / 0 * 100`, which is `Infinity`, and its score is `Math.round(0 / 0 * 100)`, which
  is `NaN`. That `NaN` is written onto the linked candidate
  (`LiveAssessment.EmptyAssessment`).
- **Completion rate.** It is `Math.round` of the completed share. It is 100 exactly
  when every candidate is completed only while there are fewer than 200 candidates.
  From 200 on, one candidate short of all already shows 100
  (`Stats.NearlyAllShowsFull`, `Scoring.RoundPercentFullWithoutAll`).
- **Submitting twice.** The panel's submit button stays visible after the results are
  shown. A second click scores the same answers again and passes the completed
  candidate to the callback again, so submission is not a no-op on repeat
  (`LiveAssessment.ResubmitRepeatsSubmission`).
- **A failed candidate write.** When the callback rejects, the handler's `catch` skips
  `setShowResults(true)`, so the results stay hidden (`LiveAssessment.Submit`). The
  dashboard page's callback swallows its own errors, so there the results always show
  (`HomePage.LiveSubmit`).
- **The inline feature never shows its results.** `handleTestSubmit` clears `isLiveTest`
  first (src/components/MainFeature.jsx:72). The results panel (:193) is rendered only
  inside the live branch (:150), so after a submission it never appears; the
  `showResults` flag set at :99 is read by nothing until the next start clears it
  (`MainFeature.Submit`).
- **Rescheduling is dead code.** Nothing in the program calls `rescheduleAssessment`
  (src/components/MainFeature.jsx:106-126). `MainFeature.Reschedule` and
  `MainFeature.RescheduleKeepsSync` model what it would do if called; no user action
  reaches it.
- **The question bank never loads.** Its initial load (src/pages/QuestionBankPage.jsx:50-67)
  calls `questionService.getCategories()`, which does not exist in `questionService.js`.
  The call throws a `TypeError` inside the `try`, and the `catch` sets the error message.
  Nothing ever clears that message, so the page renders only its error screen and its
  question list stays empty. None of the page's handlers can then be reached. The
  `QuestionBank` module models the handlers as they would behave had the initial load
  succeeded.
- **A missing correct answer.** `None` for a question's `correctAnswer` models a missing
  key (`undefined`) only. A stored `null` is not modelled; `undefined === null` is false
  in JavaScript, whereas `Scoring.IsCorrect` treats two `None`s as a match.

## Model

| member | source | states |
|---|---|---|
| Store.Find | src/services/api/candidateService.js:17-21 | `find` by id: None exactly when no record has the id; otherwise the first record with that id |
| Store.Update | src/services/api/candidateService.js:36-44 | Throws the not-found message exactly when no record has the id, and then nothing changes. Otherwise only the first record with the id is replaced by the merge, and the merged record is returned |
| Store.Delete | src/services/api/candidateService.js:46-54 | Throws exactly when the id is absent. Otherwise the first record with the id is removed and returned, the others stay in order, and the array is one shorter, the same as a multiset |
| Store.Create | src/services/api/candidateService.js:23-34 | The new record is appended after the unchanged existing ones and returned |
| Store.MapMirrorsUpdate | src/pages/QuestionBankPage.jsx:129-133 | A page's `list.map(x => x.id === id ? merge(x) : x)` gives the same array as the service update whenever the id occurs at most once |
| Store.FilterMirrorsDelete | src/pages/QuestionBankPage.jsx:166-168 | A page's `list.filter(x => x.id !== id)` gives the same array as the service delete whenever the id occurs at most once |
| Store.RemoveWhereAbsent | src/pages/QuestionBankPage.jsx:168 | Filtering out an id that no record holds leaves the list unchanged |
| Store.FirstIsUnique | src/services/api/candidateService.js:38 | `findIndex` returns the first matching index, and only that one |
| Records.MergeLaws | src/services/api/candidateService.js:40 | Spreading a whole record over another yields that record; an empty patch changes nothing; applying a patch twice is applying it once; the id survives a patch without an id |
| CandidateService.GetAll | src/services/api/candidateService.js:12-15 | Copies of all records, in order |
| CandidateService.GetById | src/services/api/candidateService.js:17-21 | Null exactly when no record has the id; otherwise the first record with it |
| CandidateService.NewRecord | src/services/api/candidateService.js:25-31 | id `candidate_<now>`. Status defaults to `invited` when missing or empty. Score is null when missing, 0 or `NaN`. Assessments default to the empty list. Name and email are kept |
| CandidateService.Create | src/services/api/candidateService.js:23-34 | The new record is appended and returned; the existing ones are untouched |
| CandidateService.Update | src/services/api/candidateService.js:36-44 | Throws `Candidate not found` exactly when the id is absent, with nothing changed. Otherwise the first record with the id becomes the patch spread over it, and the others are unchanged |
| CandidateService.Delete | src/services/api/candidateService.js:46-54 | Throws `Candidate not found` exactly when the id is absent. Otherwise it removes and returns the first record with the id, keeping the rest in order |
| CandidateService.GetByStatus | src/services/api/candidateService.js:56-61 | Keeps exactly the records with that status, only records from the array, and no more of them than the array holds |
| CandidateService.FiltersKeepOrder | src/services/api/candidateService.js:56-70 | The status filter and the name search both distribute over concatenation, so stored order and multiplicity are kept |
| CandidateService.SearchByName | src/services/api/candidateService.js:63-70 | Keeps exactly the records whose lower-cased name contains the lower-cased query, and no more of them than the array holds |
| CandidateService.SearchEmptyReturnsAll | src/services/api/candidateService.js:63-70 | Searching for the empty name returns every record |
| CandidateService.CreateThenDelete | src/services/api/candidateService.js:23-54 | Deleting the record just created, when its id was fresh, restores the array |
| CandidateService.UpdateThenGet | src/services/api/candidateService.js:17-44 | After a successful update that keeps the id, `getById` returns the updated record |
| AssessmentService.GetAll | src/services/api/assessmentService.js:12-15 | Copies of all records, in order |
| AssessmentService.GetById | src/services/api/assessmentService.js:17-21 | Null exactly when the id is absent; otherwise the first record with it |
| AssessmentService.NewRecord | src/services/api/assessmentService.js:25-29 | id `assessment_<now>`; status defaults to `draft` when missing or empty; the other fields are kept |
| AssessmentService.Create | src/services/api/assessmentService.js:23-32 | The new record is appended and returned |
| AssessmentService.Update | src/services/api/assessmentService.js:34-42 | Throws `Assessment not found` exactly when the id is absent; otherwise only the first match is merged |
| AssessmentService.Delete | src/services/api/assessmentService.js:44-52 | Throws `Assessment not found` exactly when the id is absent; otherwise removes the first match |
| AssessmentService.GetByType | src/services/api/assessmentService.js:54-59 | Keeps exactly the records of that type |
| AssessmentService.GetByStatus | src/services/api/assessmentService.js:61-66 | Keeps exactly the records with that status |
| AssessmentService.FiltersKeepOrder | src/services/api/assessmentService.js:54-66 | Both filters distribute over concatenation, so stored order and multiplicity are preserved |
| QuestionService.GetAll | src/services/api/questionService.js:12-15 | Copies of all records, in order |
| QuestionService.GetById | src/services/api/questionService.js:17-21 | Null exactly when the id is absent; otherwise the first record with it |
| QuestionService.NewRecord | src/services/api/questionService.js:25-29 | id `question_<now>`; points default to 1 when 0; every other field is kept |
| QuestionService.Create | src/services/api/questionService.js:23-32 | The new record is appended and returned |
| QuestionService.Update | src/services/api/questionService.js:34-42 | Throws `Question not found` exactly when the id is absent; otherwise only the first match is merged |
| QuestionService.Delete | src/services/api/questionService.js:44-52 | Throws `Question not found` exactly when the id is absent; otherwise removes the first match |
| QuestionService.GetByType | src/services/api/questionService.js:54-59 | Keeps exactly the records of that type, and no more of them than the array holds |
| QuestionService.GetByTypeKeepsOrder | src/services/api/questionService.js:54-59 | The type filter distributes over concatenation, so stored order and multiplicity are kept |
| QuestionService.DeleteMissingKeepsLength | src/services/api/questionService.js:44-52 | Deleting an absent id throws and leaves the array as it was |
| Answers.Record | @/components/organisms/LiveAssessment.jsx:32-37 | The answer to that question becomes the new value; every other answer is unchanged |
| Answers.RecordLaws | @/components/organisms/LiveAssessment.jsx:32-37 | Only the last answer to a question counts; answers to different questions commute |
| Navigation.Navigate | @/components/organisms/LiveAssessment.jsx:39-45 | Moves forward exactly when asked and not on the last question, and back exactly when asked and not on the first; it never leaves the valid range |
| Navigation.NavigateLaws | @/components/organisms/LiveAssessment.jsx:39-45 | The ends saturate; a step forward then back (or back then forward) returns to the same question |
| Navigation.Progress | @/components/organisms/LiveAssessment.jsx:78 | `Infinity` exactly when there are no questions; otherwise above 0, at most 100, and 100 exactly on the last question |
| Timer.Step | @/components/organisms/LiveAssessment.jsx:20-26 | A tick from one second or less submits and leaves 0; any other tick takes off exactly one second; the time never goes negative |
| Scoring.CorrectCount | @/components/organisms/LiveAssessment.jsx:50-53 | At most the number of questions; all of them exactly when every answer matches; none exactly when no answer matches |
| Scoring.RoundPercent | @/components/organisms/LiveAssessment.jsx:54 | `Math.round(part / whole * 100)`: the integer nearest the percentage, halves rounded up; 0 for none and 100 for all |
| Scoring.RoundPercentMonotone | @/components/organisms/LiveAssessment.jsx:54 | More correct answers never score less |
| Scoring.RoundPercentFullIff | @/components/organisms/LiveAssessment.jsx:54 | With fewer than 200 questions, the score is 100 exactly when all are right |
| Scoring.RoundPercentFullWithoutAll | @/components/organisms/LiveAssessment.jsx:54 | 199 of 200 already rounds to 100 |
| Scoring.Score | @/components/organisms/LiveAssessment.jsx:47-54 | `NaN` exactly when there are no questions. Otherwise the score lies in 0..100, is within half a point of the exact percentage, is 100 when all answers match and is 0 when none does |
| Scoring.UnansweredWithoutKeyIsCorrect | @/components/organisms/LiveAssessment.jsx:51-53 | An unanswered question without a correct answer counts as correct |
| Scoring.CorrectCountCons | @/components/organisms/LiveAssessment.jsx:51-53 | Correct answers are counted question by question |
| Scoring.ThreeOfFourScores75 | @/components/organisms/LiveAssessment.jsx:47-54 | Answers A, B, X, D against the key A, B, C, D score 75 |
| Scoring.ThreeOfFourCorrect | @/components/organisms/LiveAssessment.jsx:51-53 | In that example exactly three answers match their keys |
| Scoring.LinkedCandidate | @/components/organisms/LiveAssessment.jsx:57-59 | The first candidate whose assessments reference the assessment; none exactly when no candidate does |
| Scoring.Completed | @/components/organisms/LiveAssessment.jsx:62-66 | The candidate with the score and status `completed`, everything else kept |
| TimerDisplay.JsRem | @/components/molecules/TimerDisplay.jsx:6 | JavaScript `%` with a positive divisor: the usual remainder for a non-negative dividend, and for a negative one the remainder taking the dividend's sign: 0 when the divisor goes in evenly, otherwise the Euclidean remainder minus the divisor |
| TimerDisplay.Format | @/components/molecules/TimerDisplay.jsx:4-7 | For a non-negative time the label is the whole minutes in decimal, a colon, and the seconds past the minute as two digits with a leading zero |
| TimerDisplay.FormatFields | @/components/molecules/TimerDisplay.jsx:5-7 | In a label for a non-negative time, the colon sits three places from the end, the minutes before it, and the last two characters are digits whose value is the seconds past the minute |
| TimerDisplay.ParseLabel | @/components/molecules/TimerDisplay.jsx:7 | A label of m minutes and s seconds reads back as 60·m + s |
| TimerDisplay.SecondsField | @/components/molecules/TimerDisplay.jsx:6-7 | For a non-negative time, `String(t % 60).padStart(2, '0')` is the two-digit form of the seconds past the minute |
| TimerDisplay.FormatRoundTrip | @/components/molecules/TimerDisplay.jsx:4-7 | Reading the label back as minutes and seconds gives the original number of seconds |
| TimerDisplay.NegativeTime | @/components/molecules/TimerDisplay.jsx:5-7 | A negative time shows both fields negative: -5 seconds is `-1:-5` |
| LiveAssessment.Start | @/components/organisms/LiveAssessment.jsx:11-14 | First question, `duration * 60` seconds, no answers, results hidden; consistent whenever the duration is not negative |
| LiveAssessment.AnswerChange | @/components/organisms/LiveAssessment.jsx:32-37 | Records one answer and keeps the session consistent; nothing else changes |
| LiveAssessment.NavigateQuestion | @/components/organisms/LiveAssessment.jsx:39-45 | Moves by at most one question within range; the answers and timer are unchanged |
| LiveAssessment.Submit | @/components/organisms/LiveAssessment.jsx:47-75 | Computes the score; hands the first linked candidate, completed with it, to the callback. The results are shown exactly when no candidate is linked, the callback resolves, or they were already shown |
| LiveAssessment.Tick | @/components/organisms/LiveAssessment.jsx:16-30 | Nothing happens unless time is left and the results are hidden. A tick from one second or less makes the submission and leaves the session `handleTestSubmit` leaves, with the time at 0; any other tick takes one second off |
| LiveAssessment.Progress | @/components/organisms/LiveAssessment.jsx:78 | `Infinity` exactly for an assessment without questions; otherwise above 0, at most 100, and 100 exactly on the last question. Only the position matters, not the time left |
| LiveAssessment.EmptyAssessment | @/components/organisms/LiveAssessment.jsx:50-78 | Without questions the progress is `Infinity`, the score is `NaN`, and the linked candidate is written back with score `NaN` |
| LiveAssessment.RunTicks | @/components/organisms/LiveAssessment.jsx:16-30 | Ticks on a stopped timer change nothing, and any number of ticks submits at most once |
| LiveAssessment.ResubmitRepeatsSubmission | @/components/organisms/LiveAssessment.jsx:47-75 | Submitting again after the results are shown yields the same score and hands the same completed candidate to the callback a second time |
| LiveAssessment.StoppedStaysStopped | @/components/organisms/LiveAssessment.jsx:18 | Once the time is used up, no number of ticks changes anything |
| LiveAssessment.CountdownSubmitsOnce | @/components/organisms/LiveAssessment.jsx:16-30 | With t seconds left and results hidden, t-1 ticks only count down; from the t-th tick on, the attempt has been submitted exactly once |
| LiveAssessment.StartedCountdown | @/components/organisms/LiveAssessment.jsx:12-30 | A started attempt of d minutes submits once after exactly 60·d ticks and not before; with d ≤ 0 nothing ever happens |
| MainFeature.StartAssessment | src/components/MainFeature.jsx:41-53 | Selects the assessment, starts the live test at the first question with `duration * 60` seconds and no answers, and hides the results |
| MainFeature.AnswerChange | src/components/MainFeature.jsx:55-60 | Records one answer; nothing else changes |
| MainFeature.NavigateQuestion | src/components/MainFeature.jsx:62-68 | The saturating one-step move within the selected assessment |
| MainFeature.CompletedCandidate | src/components/MainFeature.jsx:75-91 | None exactly when no candidate is linked; otherwise the first linked candidate, as `find` picks it, with the score and status `completed` |
| MainFeature.ReplaceCandidate | src/components/MainFeature.jsx:94-96 | Every local record with the candidate's id becomes the updated record; the others are kept |
| MainFeature.Submit | src/components/MainFeature.jsx:70-104 | Always ends the live test. With no selection, nothing else happens. If the service update throws, nothing else changes. Otherwise the service and local lists take the completed record and the `showResults` flag is set; nothing renders it, because the live view has closed |
| MainFeature.Tick | src/components/MainFeature.jsx:25-39 | No effect unless live with time left; from one second or less it submits and stops the timer at 0; otherwise it takes one second off |
| MainFeature.RunTicks | src/components/MainFeature.jsx:25-39 | Ticking never changes the selection |
| MainFeature.SubmitStopsTimer | src/components/MainFeature.jsx:72 | After a submission no tick changes anything |
| MainFeature.CountdownSubmits | src/components/MainFeature.jsx:25-39 | With t seconds left, t-1 ticks only count down and the t-th submits; later ticks do nothing |
| MainFeature.StoppedStaysStopped | src/components/MainFeature.jsx:27 | Without a running timer, ticks do nothing |
| MainFeature.Reschedule | src/components/MainFeature.jsx:106-126 | The first local assessment with the id gets the new date and status `scheduled`, which is written to the service and to every local copy. A missing id or a throwing service changes nothing |
| MainFeature.RescheduleKeepsSync | src/components/MainFeature.jsx:115-119 | If the local list mirrors the service and the id occurs at most once, they stay equal |
| MainFeature.ReplaceIsMerge | src/components/MainFeature.jsx:92-96 | Replacing a record locally equals the service's spread of the whole record |
| MainFeature.DistinctAtMostOne | src/components/MainFeature.jsx:82-84 | With distinct ids, each id occurs at most once |
| MainFeature.SubmitKeepsSync | src/components/MainFeature.jsx:92-96 | With distinct ids, a submission keeps the local candidate list equal to the service's |
| Stats.CompletedCount | src/pages/Home.jsx:46 | The number of positions holding a completed candidate, at most the total |
| Stats.CompletionRate | src/pages/Home.jsx:46 | 0 without candidates; otherwise the completed share rounded to a whole percentage, always between 0 and 100 |
| Stats.Compute | @/components/pages/HomePage.jsx:85-90 | Total candidates is the list length; active tests and pending interviews are the number of positions holding an active assessment and a pending interview, so at most the number of assessments; the completion rate is in 0..100 |
| Stats.ActiveTestsCount | src/pages/Home.jsx:44 | Active tests is 0 exactly when no assessment is active, and the total exactly when all are |
| Stats.PendingAtMostInterviews | src/pages/Home.jsx:45 | Pending interviews never exceed the number of interviews |
| Stats.CompletionRateExtremes | src/pages/Home.jsx:46 | Below 200 candidates, the rate is 100 exactly when all are completed and 0 exactly when none is |
| Stats.NearlyAllShowsFull | src/pages/Home.jsx:46 | From 200 candidates on, all but one completed already shows 100 |
| HomePage.ToggleDarkMode | @/components/pages/HomePage.jsx:54-56 | Flips the theme and nothing else |
| HomePage.TabChange | @/components/pages/HomePage.jsx:58-61 | Shows the tab and clears the selected assessment; theme and everything else are unchanged |
| HomePage.StartAssessment | @/components/pages/HomePage.jsx:63-65 | Selects the assessment |
| HomePage.AssessmentComplete | @/components/pages/HomePage.jsx:67-70 | Clears the selection; the tab, the theme and everything else are unchanged |
| HomePage.ShowsLive | @/components/pages/HomePage.jsx:154-166 | The live panel is rendered on the dashboard tab while an assessment is selected |
| HomePage.ViewTransitions | @/components/pages/HomePage.jsx:154-166 | The live panel shows exactly on the dashboard tab with a selection. Changing tab or completing leaves it; starting enters it exactly on the dashboard tab; toggling the theme twice changes nothing |
| HomePage.ReplaceLocal | @/components/pages/HomePage.jsx:76-78 | Every local record with the id becomes the updated record; the others are kept |
| HomePage.CandidateUpdate | @/components/pages/HomePage.jsx:73-83 | A service error is swallowed and changes nothing. Otherwise the service stores the record at the first match and the local list replaces every record with the id |
| HomePage.ReplaceIsMerge | @/components/pages/HomePage.jsx:75-78 | The local replacement equals the service's spread of the whole record |
| HomePage.CandidateUpdateKeepsSync | @/components/pages/HomePage.jsx:73-83 | If the local list mirrors the service and the id occurs at most once, they stay equal |
| HomePage.LiveSubmit | @/components/pages/HomePage.jsx:160-166 | The panel's submission with this page's callback always shows the results, because the callback never rejects |
| HomePage.LiveSubmitStoresResult | @/components/pages/HomePage.jsx:160-166 | A submission stores the linked candidate as completed with the score, keeps page and service in sync, and shows the results |
| QuestionBank.NonBlank | src/pages/QuestionBankPage.jsx:100 | Keeps exactly the options that are not blank once trimmed, and no more of them than the list holds |
| QuestionBank.NonBlankKeepsOrder | src/pages/QuestionBankPage.jsx:100 | Dropping blank options distributes over concatenation, so the kept options keep their order and count |
| QuestionBank.Validate | src/pages/QuestionBankPage.jsx:84-113 | Each rule has its own key and message. Content and category must not be blank; points must be at least 1. A multiple-choice draft needs two non-blank options, and a correct answer that is non-blank and verbatim one of the options |
| QuestionBank.IsValid | src/pages/QuestionBankPage.jsx:111-112 | The form is valid when the error object has no keys |
| QuestionBank.ValidIff | src/pages/QuestionBankPage.jsx:111-112 | The form is accepted exactly when every rule holds |
| QuestionBank.OptionsRuleIgnoresAnswer | src/pages/QuestionBankPage.jsx:99-103 | Whether the options rule fires does not depend on the correct answer |
| QuestionBank.OneRealOptionIsRefused | src/pages/QuestionBankPage.jsx:99-108 | Options `"", "X", "", ""` with answer `X` give an options error but no answer error |
| QuestionBank.SaveData | src/pages/QuestionBankPage.jsx:124-127 | Multiple-choice options are saved without the blank ones; other types are saved with no options; the other fields are kept |
| QuestionBank.SavedMultipleChoiceIsWellFormed | src/pages/QuestionBankPage.jsx:118-127 | A valid multiple-choice draft is saved with at least two options, none blank, and a correct answer among them |
| QuestionBank.EditDraft | src/pages/QuestionBankPage.jsx:147-157 | The form takes the question's fields; missing options become four blanks and a missing answer the empty string |
| QuestionBank.EditOfSavedIsValid | src/pages/QuestionBankPage.jsx:136-157 | Reopening a question created from a valid draft gives a valid form showing the saved options |
| QuestionBank.OptionChange | src/pages/QuestionBankPage.jsx:190-194 | Only the option at the index changes |
| QuestionBank.EditLocal | src/pages/QuestionBankPage.jsx:131-133 | Every local question with the id gets the saved data spread over it; the others are unchanged |
| QuestionBank.DeleteLocal | src/pages/QuestionBankPage.jsx:168 | Keeps exactly the local questions with another id, and no more of them than the list holds |
| QuestionBank.DeleteLocalKeepsOrder | src/pages/QuestionBankPage.jsx:168 | The local delete distributes over concatenation, so the remaining questions keep their order and count |
| QuestionBank.Edit | src/pages/QuestionBankPage.jsx:147-159 | Opens the form on the question; the previous errors stay |
| QuestionBank.SubmitForm | src/pages/QuestionBankPage.jsx:115-145 | An invalid form only records its errors. A valid one is saved, by update when editing and by create otherwise; the page list takes the same change and the form is reset. A throwing update leaves only cleared errors |
| QuestionBank.DeleteQuestion | src/pages/QuestionBankPage.jsx:161-173 | Deleting an id the service lacks changes nothing. Otherwise the service splices out the first record with the id, and the page drops every question with the id |
| QuestionBank.PageStaysInSync | src/pages/QuestionBankPage.jsx:115-173 | If the page list mirrors the service and ids occur at most once, saving and deleting keep them equal |
| QuestionBank.ChooseAnswer | src/pages/QuestionBankPage.jsx:578 | The radio button of a row makes that row's option the correct answer and changes nothing else |
| QuestionBank.ChooseAnswerSatisfiesRule | src/pages/QuestionBankPage.jsx:104-108 | Choosing a non-blank option satisfies the answer rule and leaves every other rule's verdict unchanged |
| QuestionBank.PointsInput | src/pages/QuestionBankPage.jsx:545 | `parseInt(value) \|\| 1`: a non-zero number is kept, and `NaN` or 0 becomes 1, so the field never holds 0 |
| QuestionBank.TypeLabel | src/pages/QuestionBankPage.jsx:292 | The label has the type's length. Each hyphen becomes a space; the first character and each one after a hyphen are upper-cased; the rest are kept |
| QuestionBank.SplitJoinIsLabelFrom | src/pages/QuestionBankPage.jsx:292 | Splitting on hyphens, capitalising and joining with spaces agrees with a one-pass character rewrite |
| Text.TrimDropsOuterWhitespace | src/pages/QuestionBankPage.jsx:87 | `trim()` leaves a stretch of the string with only whitespace before and after it, and that neither starts nor ends with whitespace |
| Text.BlankIffAllWhitespace | src/pages/QuestionBankPage.jsx:87 | `!s.trim()` holds exactly when every character is whitespace |
| Text.Lower | src/services/api/candidateService.js:67 | `toLowerCase` keeps the length and lower-cases each character |
| Text.Contains | src/services/api/candidateService.js:67 | `includes` holds exactly when the needle occurs at some position |
| Text.ParseNatToString | @/components/molecules/TimerDisplay.jsx:7 | Reading back a number's decimal digits gives the number |
| Text.PadStart | @/components/molecules/TimerDisplay.jsx:7 | Pads on the left with the fill character up to the width, keeping the string as the suffix |

## Left out

- The random 200–500 ms delay of every service call, the `async` scheduling, and stale closures are not modelled. Each handler is one atomic step on the current state.
- Toasts, `console.error`, `window.confirm`, routing (`navigate`) and JSX rendering are not modelled. `QuestionBank.DeleteQuestion` is the handler after the user has confirmed.
- The dark-mode class on `document.documentElement`, the loading and error screens, and the initial `loadData` / `loadInitialData` fetches are not modelled; they are I/O.
- The question bank's `applyFilters` calls `questionService.search`, and its initial load calls `getCategories`, `getDifficulties` and `getTypes`. None of these exists in `questionService.js`, so they are not part of this model. The failed `search` falls back to the unfiltered list; the failed initial load is described above.
- Date labels and status colours (`getDateLabel`, `getStatusColor`) are not modelled, because they depend on date-fns and the current date and are presentation only.
- The sidebar items, view toggles and the `activeView` state carry no logic beyond setting a string.
- Copies made by `{ ...item }` are values here. Callers cannot alias the stored records, which in the source holds only one level deep.
- `formatTimeRemaining` in src/components/MainFeature.jsx:128-132 is the same computation as `TimerDisplay.Format` and is not modelled twice.
- CandidateService.SearchByName: `toLowerCase` is modelled for ASCII letters only; other Unicode case mappings are not modelled.
- Text.Lower: it lower-cases ASCII letters only and keeps every other character, so other Unicode case mappings are not modelled.
- QuestionService.NewRecord: `points || 1` also turns `undefined` and `NaN` into 1; the model's points are integers, so only 0 is defaulted. The question form always passes a number.
- QuestionBank.TypeLabel: `toUpperCase` is modelled for ASCII letters only.
- QuestionBank.OptionChange: it requires an index inside the options list. The page only passes indices of rendered options; writing past the end, which leaves holes in a JavaScript array, is not modelled.
- QuestionBank.PointsInput: `parseInt` itself is not modelled. Its outcome is the parameter, with `None` for `NaN`.
- Stats.CompletionRateExtremes: it is stated only below 200 candidates. Above that the "100 exactly when all are completed" reading is false; see `Stats.NearlyAllShowsFull`.
- Scoring.RoundPercentFullIff: it is stated only below 200 questions, for the same rounding reason.
- Scoring.RoundPercent: the percentage is rounded from the exact rational value. The source rounds the double `correct / total * 100`, which can land a last bit away from an exact half. Lengths, times and scores are unbounded integers.
