# L-earnings: the page rules behind performance-based refunds

L-earnings is a course-catalog web front end whose selling point is a refund
that depends on the learner's final-test score. Nearly all of it is React UI.
This project models the few deterministic rules inside its page handlers as
pure Dafny functions over immutable values, and proves what those rules
promise:

- **Final test** (`FinalTest`): the two-question bank, the answer map the
  radio groups fill in, the submit gate, the `Math.round(correct / total * 100)`
  score and the "at least 90" refund line of the toast.
- **Course detail** (`CourseDetail`, `EnrolledCourses`): the page's
  two-course catalog, the "already enrolled" check, and the append-if-absent
  enroll handler over the stored `enrolledCourses` list.
- **Dashboard** (`Dashboard`): enrolled and completed counts, the
  proportional refund total `score / 100 × price`, the rounded average score,
  the pie-chart split and the five-item activity feed.
- **Catalog** (`Courses`): the four-way filter (case-insensitive search,
  category, level, inclusive price range) and its reset state.
- **Sign-up** (`Signup`): `validateForm` with its error precedence, the live
  mismatch checks while typing, the submit-disabled rule and the `login` call.
- **Login** (`Login`): no credential check, and the display name
  `email.split('@')[0]`.
- **Chat bot** (`ChatBot`): the ordered keyword table and the
  trim/ignore/append rule for a send.

Shared helpers: `Nullable` (an `Option` for absent keys and `null`), `Text`
(the JavaScript string built-ins the pages use: ASCII `toLowerCase`,
`includes`, `trim`, `split`), `Rounding` (`Math.round` on exact values) and
`Session` (the `login(email, userData)` call shape).

Each page keeps its own rule. The final test's toast promises a refund only
at a score of 90 or more. The dashboard pays `score%` of the price at any
score. The chat bot's reply says 90% back for a score of 90% or more. The
model states each rule as its own file has it and does not reconcile them.

Browser storage is a value: a `Store` is `None` when the `enrolledCourses`
key is absent, otherwise the parsed list; handlers take it and return the
list they would write. Login state, the page's enrolled flag and a failing
reply promise are parameters.

## Model

| member | source | states |
|---|---|---|
| FinalTest.CountCorrect | src/pages/FinalTest.tsx:56-58 | The count never exceeds the answered questions or the bank size, equals the bank size iff every answer is correct, and is 0 iff none is |
| FinalTest.CountCorrectSingle | src/pages/FinalTest.tsx:56-58 | A one-question bank counts 1 exactly when the question's stored answer equals its correct answer, else 0 |
| FinalTest.CountCorrectAppend | src/pages/FinalTest.tsx:56-58 | The count of a concatenated bank is the sum of the parts' counts, so with the single case every question counts exactly when its stored answer equals its correct answer |
| FinalTest.HandleSubmit | src/pages/FinalTest.tsx:54-64 | For a non-empty bank the score is round-half-up of 100 × correct / total, computed as (200·correct + total) div (2·total) of the counted correct answers; it lies in [0,100], is 100 when every answer is correct and 0 when none is; an empty bank gives NaN; the refund line is chosen iff the score is at least 90 |
| FinalTest.PercentBounds | src/pages/FinalTest.tsx:55-59 | With 0 ≤ correct ≤ total and total > 0 the rounded percentage lies in [0,100] |
| FinalTest.ScoreIntegerForm | src/pages/FinalTest.tsx:59 | `ScoreOf`, the page's `Math.round((correct / total) * 100)` (line 59), on a non-empty bank equals (200·correct + total) div (2·total) in integers |
| FinalTest.ScoreMonotone | src/pages/FinalTest.tsx:59 | More correct answers never give a lower score |
| FinalTest.MockTestScores | src/pages/FinalTest.tsx:14-63 | On the page's two-question bank every answer map scores 0, 50 or 100, and the refund line appears iff both answers are correct |
| FinalTest.MockTestWellFormed | src/pages/FinalTest.tsx:14-39 | The page's bank has distinct ids, at least two options per question, and each correct answer indexes an option |
| FinalTest.SelectAnswer | src/pages/FinalTest.tsx:84-90 | Choosing an option sets that question's entry and leaves every other key and value unchanged |
| FinalTest.SelectKeepsKeysFromBank | src/pages/FinalTest.tsx:78-90 | Selecting on a question of the bank keeps every key of the answer map a question id of the bank |
| FinalTest.SubmitEnabledIffComplete | src/pages/FinalTest.tsx:106 | `SubmitEnabled`, the button's `Object.keys(answers).length === mockTest.questions.length` test (line 106): with distinct ids (no other bank property needed) and keys drawn from the bank, "answered count equals question count" holds iff every question is answered |
| Rounding.Round | src/pages/FinalTest.tsx:59 | Math.round returns the integer n with n − ½ ≤ x < n + ½ (halves round up) |
| Rounding.RoundRatio | src/pages/Dashboard.tsx:85 | Math.round(a / b) for b > 0 equals (2a + b) div (2b) with floor division |
| EnrolledCourses.Occurrences | src/pages/CourseDetail.tsx:212 | The number of stored records carrying an id is 0 iff no record carries it |
| CourseDetail.Lookup | src/pages/CourseDetail.tsx:167 | `coursesData[id]` is a catalog course exactly for the catalog's own keys (carrying that id and a positive price), a truthy non-course for a name inherited from `Object.prototype`, and undefined otherwise |
| CourseDetail.Render | src/pages/CourseDetail.tsx:244-280 | A catalog id renders its course; an inherited member name passes the `!course` guard and throws at `course.rating.toFixed(1)`; any other id renders the not-found view, so no enroll button is offered |
| CourseDetail.CatalogRenders | src/pages/CourseDetail.tsx:17-167 | No catalog id names an inherited member, so every catalog course renders its detail view |
| CourseDetail.CheckEnrolled | src/pages/CourseDetail.tsx:173-186 | When logged in with a non-empty id and a stored list, the flag holds iff some stored record has the id; otherwise the flag keeps its previous value |
| CourseDetail.FlagAfterEnroll | src/pages/CourseDetail.tsx:173-225 | After the handler enrolls an id, the effect recomputing the flag from the written list finds it |
| CourseDetail.FlagBlocksWrite | src/pages/CourseDetail.tsx:173-212 | Once the effect has found the id in the stored list, the handler writes nothing, with the flag set or not |
| CourseDetail.NewRecord | src/pages/CourseDetail.tsx:213-223 | A fresh record has the route id, the catalog price, no test taken, a null score and progress "0%" |
| CourseDetail.HandleEnroll | src/pages/CourseDetail.tsx:188-241 | The page's enrolled flag is raised by a successful enrollment and otherwise left as it was. Logged out: redirect, store unchanged; flag already set: redirect, store unchanged; id already stored: nothing happens and nothing is written; otherwise, for a catalog id, exactly one fresh record is appended after the unchanged old list (absent storage read as empty); a new id outside the catalog fails ("Enrollment Failed") with the store unchanged |
| CourseDetail.NextClickRedirects | src/pages/CourseDetail.tsx:199-232 | After an enrollment the raised flag makes the next click redirect to My Courses, writing nothing |
| CourseDetail.StoredButUnflaggedIsSilent | src/pages/CourseDetail.tsx:199-212 | An id already stored while the flag is down gets no response: nothing is written, the flag stays down, and every further click ends the same way |
| CourseDetail.EnrollAppendsOnce | src/pages/CourseDetail.tsx:212-225 | After an enrollment the id occurs exactly once, the list grew by one, and every earlier record keeps its place and value |
| CourseDetail.EnrollIdempotent | src/pages/CourseDetail.tsx:199-225 | A second enroll stores the same list as the first, whatever the page flag says, and a newly enrolled id then occurs exactly once |
| CourseDetail.EnrollIntoEmptyStore | src/pages/CourseDetail.tsx:205-225 | With nothing stored, enrolling writes a one-record list |
| Dashboard.Refund | src/pages/Dashboard.tsx:75 | With a score in [0,100] and a non-negative price the refund lies between 0 and the price; score 0 refunds 0 and score 100 refunds the price |
| Dashboard.RefundMonotone | src/pages/Dashboard.tsx:75 | On a fixed non-negative price a higher score never gives a smaller refund |
| Dashboard.RefundExampleSingle | src/pages/HowItWorksPage.tsx:183-194 | Score 85 on price 100 refunds 85 and leaves 15 to pay |
| Dashboard.RefundExampleTiers | src/pages/HowItWorksPage.tsx:53-74 | On price 200, scores 70, 85 and 95 refund 140, 170 and 190, the last leaving 10 to pay |
| Dashboard.Completed | src/pages/Dashboard.tsx:61-62 | The completed count never exceeds the enrolled count |
| Dashboard.TestsTaken | src/pages/Dashboard.tsx:69-80 | The number of scored records never exceeds the completed count |
| Dashboard.TotalRefundBounds | src/pages/Dashboard.tsx:69-82 | `TotalRefund`, the page's refund sum over records with a non-null score (lines 69-82): with scores in [0,100] and non-negative prices, the refund total lies between 0 and the sum of the scored records' prices (missing prices counting 0) |
| Dashboard.ScoreSumBounds | src/pages/Dashboard.tsx:69-82 | With scores in [0,100] (prices play no part), the score sum lies between 0 and 100 times the number of scored records |
| Dashboard.AggregatesAppend | src/pages/Dashboard.tsx:61-82 | Completed count, refund total, score sum and tests taken of a concatenation are the sums of the parts' |
| Dashboard.NullScoreCountsOnlyAsCompleted | src/pages/Dashboard.tsx:62-70 | A taken test with a null score adds one to the completed count and nothing to the refund, the score sum or the tests taken |
| Dashboard.AverageBounds | src/pages/Dashboard.tsx:85 | `Average`, the page's `testsTaken > 0 ? Math.round(totalScore / testsTaken) : 0` (line 85): with scores in [0,100] the average (0 when nothing is scored) lies in [0,100] |
| Dashboard.Completions | src/pages/Dashboard.tsx:103-111 | One test-completion entry per record with a taken test |
| Dashboard.ActivitiesAppend | src/pages/Dashboard.tsx:103-130 | The completion and refund entries of a concatenation are those of its parts in order, so each entry comes from its own record in list order |
| Dashboard.ActivitiesSingle | src/pages/Dashboard.tsx:103-130 | A record with a taken test yields one completion entry carrying its title and score, and one refund entry carrying its title and score% of `price \|\| 0`, which is 0 for a null score; a record without a taken test yields neither |
| Dashboard.Enrollments | src/pages/Dashboard.tsx:114-119 | One enrollment entry per record, in order, titled by the record |
| Dashboard.Refunds | src/pages/Dashboard.tsx:122-130 | One refund entry per record with a taken test |
| Dashboard.Feed | src/pages/Dashboard.tsx:133 | The feed is the first min(5, total) entries of completions, then enrollments, then refunds, so it has at most 5 entries and never puts a later group before an earlier one |
| Dashboard.Load | src/pages/Dashboard.tsx:52-145 | No stored list gives all zeros and an empty feed; otherwise the completed count, refund total, average score and feed shown are exactly `Completed`, `TotalRefund`, `Average` of the score sum and tests taken, and `Feed` of the stored list, enrolled is the list length, completed ≤ enrolled, the chart slices are completed and enrolled − completed (non-negative), the feed has at most 5 entries, and on sane data the refund and average obey their bounds |
| Dashboard.EmptyListLikeNoStore | src/pages/Dashboard.tsx:57-145 | A stored empty list shows the same metrics as no stored list |
| Dashboard.SumScored | src/pages/Dashboard.tsx:65-82 | The page's forEach accumulation computes exactly the refund total, the score sum and the number of scored records |
| Courses.Filter | src/pages/Courses.tsx:107-115 | Every returned course satisfies `Matches`, the conjunction of the search, category, level and price tests (lines 107-114), every matching course is returned, and the result is a subsequence of the catalog |
| Courses.FilterAppend | src/pages/Courses.tsx:107 | Filtering a concatenation is concatenating the filtered parts, so the catalog order is kept |
| Courses.FilterSingle | src/pages/Courses.tsx:107-115 | A single course is kept iff it matches |
| Courses.EmptySearchMatchesAll | src/pages/Courses.tsx:108-109 | The empty search term matches every course |
| Courses.SearchIgnoresTermCase | src/pages/Courses.tsx:108-109 | A search term and its lower-cased form match the same courses |
| Courses.SearchIffOccurs | src/pages/Courses.tsx:108-109 | A course matches the search iff the lower-cased term occurs in its lower-cased title or description |
| Courses.DefaultsShowWholeCatalog | src/pages/Courses.tsx:27-115 | Under the initial (and reset) filters "", "all", "all", [0,200] all six catalog courses are shown in order |
| Text.IncludesIffOccurs | src/pages/Courses.tsx:108-109 | `Includes`, the `String.prototype.includes` the search uses (lines 108-109), as a left-to-right scan succeeds iff the needle occurs at some offset |
| Text.Trim | src/components/ChatBot.tsx:26-28 | The trimmed text is a slice of the input with only white space cut from either end, neither starts nor ends with white space, and is empty iff the input is all white space |
| Text.SplitJoin | src/pages/Login.tsx:36 | Joining the pieces of a split with the separator gives back the string |
| Signup.ValidateForm | src/pages/Signup.tsx:24-37 | Valid iff the two fields are equal and at least 8 long; a mismatch is reported before a short password; valid iff the error is cleared to "" |
| Signup.PasswordEdited | src/pages/Signup.tsx:144-151 | Typing a password shows the mismatch error iff the confirmation is non-empty and differs, else clears it |
| Signup.ConfirmEdited | src/pages/Signup.tsx:162-169 | Typing the confirmation shows the mismatch error iff the password is non-empty and differs, else clears it |
| Signup.HandleSubmit | src/pages/Signup.tsx:39-64 | `login` is called iff the form validates, and then with the email and {email, name: fullName}; an invalid form calls nothing and leaves `validateForm`'s error on screen: the mismatch error when the fields differ, else the too-short error |
| Signup.MatchingEditsEnableSubmit | src/pages/Signup.tsx:144-199 | Equal fields typed in either order leave no error, so under `SubmitDisabled`, the button's `isSubmitting \|\| !agreedTerms \|\| Boolean(passwordError)` (line 199), the button is enabled with the terms accepted and nothing submitting |
| Signup.ShortPasswordCaughtOnlyOnSubmit | src/pages/Signup.tsx:24-199 | A 3-character password typed twice leaves the button enabled and is rejected only on submit, with the too-short error |
| Login.DisplayName | src/pages/Login.tsx:36 | The name is a prefix of the email with no '@', ending where the first '@' stands |
| Login.HandleSubmit | src/pages/Login.tsx:21-41 | Every submission calls `login` with the entered email unchanged and the derived name |
| Login.NoCredentialCheck | src/pages/Login.tsx:25-41 | The password and remember-me box do not affect the call made |
| Login.DisplayNameCases | src/pages/Login.tsx:36 | No '@' gives the whole email; a leading '@' gives the empty name; otherwise the email is the name, '@' and the remaining pieces rejoined |
| ChatBot.Reply | src/components/ChatBot.tsx:116-140 | On the lower-cased message: "refund" gives the refund reply; else "test"/"exam" the test reply; else "course" with "start"/"begin" the start reply; else "price"/"cost" the price reply; else the fallback, each iff its row is the first to match |
| ChatBot.ReplyIgnoresCase | src/components/ChatBot.tsx:121 | A message and its lower-cased form get the same reply |
| ChatBot.RefundWins | src/components/ChatBot.tsx:123-125 | Any message containing "refund" gets the refund reply, whatever else it contains |
| ChatBot.Send | src/components/ChatBot.tsx:24-45 | White-space-only input changes nothing; other input appends the trimmed user message and then one assistant message (the reply to the trimmed text, or the error text), keeps the old log as a prefix, and clears the input |
| ChatBot.SendKeepsAlternation | src/components/ChatBot.tsx:29-42 | A log of one assistant opener followed by user/assistant pairs keeps that shape after every send |
| ChatBot.InitialLogAlternates | src/components/ChatBot.tsx:15-20 | The greeting alone is such a log |

## Left out

- Browser storage and JSON: `localStorage` reads and writes, `JSON.parse` failures (whose catch blocks leave the page state as it was) and the dashboard's `storage` event listener for other tabs. The stored list is passed in and returned as a value.
- Floating point: prices and refunds are exact `real`s. IEEE rounding of `correct / total * 100`, of `score / 100 * price` and of the running sum, and `toFixed(2)` / `toLocaleString` display formatting are not modelled.
- Text.Lower: lower-cases ASCII letters only, because JavaScript's full Unicode case mapping is not modelled; search and keyword matching are therefore case-insensitive only for ASCII.
- Signup.ValidateForm: counts the length in characters (code points), not UTF-16 code units as JavaScript's `length` does.
- Dashboard.Load: stored records are typed. The JavaScript handles a missing `testScore` (giving a `NaN` refund), non-boolean `hasTakenTest` values (judged by truthiness) and a `NaN` price (which `|| 0` maps to 0). The model does not.
- FinalTest.HandleSubmit: answers are integers from the radio group's option indices; `parseInt` of arbitrary text is not modelled. The handler itself has no guard for an incomplete answer map or an empty question bank: the button is only disabled until every question is answered, and an empty bank would give `NaN`, modelled as `TestScore.NaN`.
- CourseDetail.Lookup, CourseDetail.Render: the inherited names are the members of `Object.prototype` in a standard browser; properties added to it by other scripts are not modelled.
- CourseDetail.HandleEnroll: for an id naming an inherited `Object.prototype` member, reading `course.title` does not throw, so the handler would append a record of undefined fields. The model reports `Failed` instead. This branch cannot be reached, because `Render` throws for such an id and the enroll button is never shown.
- Login.HandleSubmit, Login.DisplayNameCases, Signup.HandleSubmit: these describe the submit handlers. The forms mark their fields `required` (src/pages/Login.tsx:76-94, src/pages/Signup.tsx:120-180) and the email inputs `type="email"`. The browser's constraint validation therefore never fires `onSubmit` for an empty field or a malformed address, so an email without '@' or with a leading '@' reaches the handler only when that validation is bypassed. Constraint validation is not modelled.
- Timers, toasts, navigation and the chat bot's one-second "thinking" delay are UI effects; only their outcome (which branch is taken, what would be written or appended) is modelled.
- Session plumbing (`src/contexts/AuthContext.tsx`), mock profile and course lists (`src/pages/Profile.tsx`, `src/pages/MyCourses.tsx`), AWS sign-up and configuration (`src/pages/Verify.tsx`, `src/aws-exports.js`, `src/main.tsx`), routing and the static marketing pages are wrappers or contain no logic.
- The refund smart contract exercised by `test/EducationalRefund.test.js` is not part of this model: its source is not in the repository.
- Recording a test result into the enrollment record, single-attempt enforcement and refund rounding to the minor currency unit are not modelled, because no page does them.
