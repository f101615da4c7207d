# Quiz server: a verified model of its core

The quiz server is a NestJS application backed by a relational store (Prisma).
It runs online screening tests for job candidates:

- administrators manage subjects, questions and their answer options;
- administrators assign a subject to a candidate;
- a candidate's login opens the assigned test, and the candidate gets the questions in random order;
- the candidate submits answers, which are scored into a mark, a score text and a percentage;
- administrators can reassign an unfinished test up to a limit;
- administrators list the results with filters;
- administrators create and update accounts, and bulk-upload candidates from a spreadsheet after validating it.

This project models that core in Dafny.

- **Tables.** Each table is a sequence of rows in insertion order (`Store`). Rows are never removed, only deactivated or soft-deleted.
- **Queries.** Every repository query is a function over those sequences.
- **Writes.** Every write is a module-level method that takes the shared `Store.Db` object and may change only the tables it names. Each write is specified by a function of the old rows. The invariants of the test rows are lemmas about those functions: at most one active row per (user, subject) pair, no finished row is active, and every finished row carries its score and percentage.
- **Service guards.** Each guard chain is a `...Check` function that returns the first error in the source's order. Each service method is that check followed by the write.
- **Cross-service lifecycle.** Assignment, login, reassignment and submission are followed across services in `Lifecycle`. The reassignment limit is proved there: ten reassignments go through, and the eleventh is refused.
- **Loops and in-place algorithms.** These are imperative methods proved against specification functions:
  - the Fisher–Yates shuffle on an array;
  - the scoring loop;
  - the missing-column loop;
  - the spreadsheet row scan;
  - the in-place formatting of the sheet.

## Model

| member | source | states |
|---|---|---|
| Bank.ActiveQuestions | src/modules/auth/auth.repository.ts:106-110 | The count query returns the number of active questions of the subject, and every question listed is an active question of that subject. |
| Bank.ActiveQuestionsExact | src/modules/test/test.repository.ts:490-491 | Every active question of the subject is listed, as often as the table holds it, and nothing else. They come in table order: the table read at strictly increasing positions, which are exactly the qualifying ones. |
| Bank.ActiveOptions | src/modules/test/test.repository.ts:495-497 | Every option included is an active option of the question, and there are as many as there are such rows. |
| Bank.ActiveOptionsExact | src/modules/test/test.repository.ts:495-497 | Every active option of the question is included, as often as the table holds it, and nothing else, in table order. |
| Utils.GetErrorMessageAndStatus | src/common/utils/utils.ts:95-102 | A present message and status are passed through. A missing message becomes "Something went wrong" and a missing status becomes 500. |
| Utils.RethrowKeepsError | src/common/utils/utils.ts:32-35 | Catching an HTTP error and rethrowing `getErrorMessageAndStatus` of it gives back the same error, so each layer passes the innermost error unchanged. |
| Utils.CeilDiv | src/common/utils/utils.ts:62 | The page count is the least multiple bound: `a <= q*b < a + b`. |
| Utils.PaginationResponse | src/common/utils/utils.ts:56-86 | An empty page zeroes every number. Otherwise the total is kept and the page count is the ceiling division. With no page number the range is the whole data. With one, the range is capped at the total. With pages of 10, `[from, to]` numbers exactly the rows of a full or final page. |
| Text.Contains | src/modules/result/result.service.ts:113-121 | Substring search is true exactly when the needle occurs at some position of the text. |
| Text.Split | src/modules/result/result.service.ts:54 | Splitting gives at least one piece, and no piece holds the separator. |
| Text.IndexOf | src/modules/result/result.service.ts:54 | The first occurrence of the separator: it is there, and not before. |
| Text.JoinSplit | src/modules/result/result.service.ts:54 | Splitting loses nothing: joining the pieces with the separator gives the string back. |
| Text.SplitWithoutSeparator | src/modules/result/result.service.ts:54 | A string without a space is one piece. |
| Text.SplitAtFirst | src/modules/result/result.service.ts:54 | The first separator ends the first piece, and the rest is split the same way. |
| Text.DecimalText | src/modules/test/test.service.ts:232 | A number prints as a non-empty string of digits with no leading zero. |
| Text.DigitChar | src/modules/test/test.service.ts:232 | Each digit value prints as a digit character. |
| Text.ParseDecimalText | src/modules/test/test.service.ts:232 | Printing a number and reading it back gives the number. |
| Text.DecimalTextInjective | src/modules/test/test.service.ts:232 | Distinct numbers print differently. |
| Text.ParseDecimalBounds | src/modules/user/user.service.ts:372-375 | The leading digit bounds the value of a digit string: `d*10^(m-1) <= value < (d+1)*10^(m-1)`. |
| Shuffle.SwapAt | src/modules/test/test.service.ts:186 | Exchanging two cells keeps the length. |
| Shuffle.ShuffleDown | src/modules/test/test.service.ts:181-187 | The downward loop keeps the length. |
| Shuffle.Shuffled | src/modules/test/test.service.ts:180-190 | The whole shuffle keeps the length. |
| Shuffle.ShuffleDownPermutes | src/modules/test/test.service.ts:181-187 | Whatever the random choices, the loop from any index permutes the cells (same multiset). |
| Shuffle.ShuffledPermutes | src/modules/test/test.service.ts:180-190 | Whatever the random choices, the shuffle is a permutation of its input. |
| Shuffle.StayingChoicesKeepOrder | src/modules/test/test.service.ts:181-187 | If every choice picks the current index, the order is unchanged. |
| Shuffle.SwapAtMap | src/modules/test/test.service.ts:186 | Exchanging two cells commutes with any per-cell view. |
| Shuffle.ShuffleDownMap | src/modules/test/test.service.ts:181-187 | The loop moves cells without looking at them, so it commutes with any per-cell view. |
| Shuffle.ShuffledMap | src/modules/test/test.service.ts:180-190 | The shuffle commutes with any per-cell view. |
| Shuffle.ShuffleArray | src/modules/test/test.service.ts:180-190 | The in-place loop on the array leaves exactly the shuffle of the old contents under the same choices, a permutation of them. |
| TestRepository.FindFirst | src/modules/test/test.repository.ts:143-152 | `findFirst`: none exactly when no row qualifies; otherwise a qualifying row with no qualifying row before it. |
| TestRepository.IsTestAssignedAlready | src/modules/test/test.repository.ts:209-217 | True exactly when some row of the pair exists, in any state. |
| TestRepository.FindTestStatus | src/modules/test/test.repository.ts:165-169 | The user's first active unfinished row, or none exactly when the user has no such row. |
| TestRepository.FindIfUserSubmittedTestAlready | src/modules/test/test.repository.ts:183-195 | A row of the pair that is finished and inactive, or none exactly when there is no such row. |
| TestRepository.FindIfUserCompletedTestAlready | src/modules/test/test.repository.ts:294-301 | A finished row of the pair, or none exactly when there is none. |
| TestRepository.IsTestStarted | src/modules/test/test.repository.ts:273-280 | An active row of the pair whose start flag is true, or none exactly when there is none. |
| TestRepository.FindReassignCount | src/modules/test/test.repository.ts:385-389 | The number of unfinished rows of the pair, soft-deleted ones included; zero exactly when there are none. |
| TestRepository.FindUserWithSubject | src/modules/test/test.repository.ts:451-457 | An active row of the pair, or none exactly when there is none. |
| TestRepository.FindSubjectByUserId | src/modules/test/test.repository.ts:471-475 | The user's first active row for any subject, or none exactly when there is none. |
| TestRepository.FindTestById | src/modules/test/test.repository.ts:110-129 | An active subject with this id, or none exactly when there is none. |
| TestRepository.FindUserById | src/modules/test/test.repository.ts:143-152 | An active user with this id and the role User, or none exactly when there is none. |
| TestRepository.FindQuestionWithCorrectOption | src/modules/test/test.repository.ts:314-320 | The first active question with this id, or none exactly when there is none. The options included are active correct options of that question, as many as there are such rows. |
| TestRepository.CorrectOptionsExact | src/modules/test/test.repository.ts:321-326 | The options included are every active correct option of the question, as often as the table holds it, nothing else, in table order. |
| TestRepository.OptionViews | src/modules/test/test.repository.ts:488-500 | Options are handed out with id and text only, one for one. |
| TestRepository.FetchQuestions | src/modules/test/test.repository.ts:488-500 | Entry `k` shows the `k`-th active question of the subject (`Bank.ActiveQuestions`), with its active options and without correctness flags, so there is one entry per active question. |
| TestRepository.FinishActive | src/modules/test/test.repository.ts:249-259 | Exactly the pair's active rows become finished, inactive and scored; every other field and every other row is kept. |
| TestRepository.DeactivatePair | src/modules/test/test.repository.ts:340-353 | Exactly the pair's rows become inactive and soft-deleted; other rows are kept. |
| TestRepository.AssignTest | src/modules/test/test.repository.ts:230-233 | Exactly one new active, unfinished, unscored row for the pair is appended; earlier rows are kept. |
| TestRepository.UpdateMarks | src/modules/test/test.repository.ts:249-259 | The rows become `FinishActive` of the old rows; rows outside the pair's active ones are unchanged. |
| TestRepository.ReassignTest | src/modules/test/test.repository.ts:340-353 | The pair is deactivated. One new row is appended carrying the count of the pair's unfinished rows. Rows of other pairs are unchanged. |
| TestRepository.DeactivationKeepsReassignCount | src/modules/test/test.repository.ts:340-353 | Deactivating the pair does not change its unfinished-row count, so counting before or after the deactivation agrees. |
| TestRepository.AssignKeepsConsistent | src/modules/test/test.repository.ts:230-233 | An assignment to a pair with no rows keeps at most one active row per pair, no active finished row, and a score and percentage on every finished row. |
| TestRepository.UpdateMarksKeepsConsistent | src/modules/test/test.repository.ts:249-259 | Finishing the pair's active rows keeps the row invariants, the finished rows now carrying their score and percentage. |
| TestRepository.ReassignKeepsConsistent | src/modules/test/test.repository.ts:340-353 | Reassigning keeps the row invariants. |
| TestRepository.ReassignLeavesOneActiveRow | src/modules/test/test.repository.ts:340-353 | After reassigning, the new row is the pair's only active row. Every older row of the pair is inactive and deleted, and other pairs are untouched. |
| TestRepository.UpdateMarksWithoutActiveRowIsIdentity | src/modules/test/test.repository.ts:249-259 | With no active row for the pair, scoring writes nothing. |
| TestRepository.SubmittedImpliesCompleted | src/modules/test/test.repository.ts:183-195 | A submitted row is a completed one, and on consistent rows the converse holds. |
| TestRepository.CompletedButNotSubmitted | src/modules/test/test.repository.ts:294-301 | A finished row that is still active is found by the "completed" lookup and not by the "submitted" one. |
| AuthRepository.IsExistingUser | src/modules/auth/auth.repository.ts:17-23 | The first active user with the email, or none exactly when there is none. The test rows included are active rows of that user, as many as there are such rows. |
| AuthRepository.ExistingUserTestsExact | src/modules/auth/auth.repository.ts:24-28 | The test rows included are every active row of the user found, as often as the table holds it, nothing else, in table order. |
| AuthRepository.CheckPassword | src/modules/auth/auth.repository.ts:43-45 | A user with this id whose stored mobile number equals the password, active or not; none exactly when there is none. |
| AuthRepository.ActiveUserById | src/modules/auth/auth.repository.ts:60-63 | The active user with this id that the token update targets, or none exactly when there is none. |
| AuthRepository.FindQuestionCount | src/modules/auth/auth.repository.ts:106-110 | The number of active questions of the subject; zero exactly when it has none. |
| AuthRepository.WithToken | src/modules/auth/auth.repository.ts:60-76 | Exactly the active rows with this id get the token; everything else is kept. |
| AuthRepository.WithoutToken | src/modules/auth/auth.repository.ts:121-126 | Exactly the rows with this id lose their token. |
| AuthRepository.StartActive | src/modules/auth/auth.repository.ts:69-74 | Exactly the user's active test rows get a true start flag; everything else is kept. |
| AuthRepository.UpdateToken | src/modules/auth/auth.repository.ts:60-93 | The token is stored on the active user. For role User, that user's active test rows are also marked started. The method returns the updated user, carrying the token. |
| AuthRepository.Logout | src/modules/auth/auth.repository.ts:121-126 | The token of the rows with this id is cleared. |
| AuthRepository.StartActiveIdempotent | src/modules/auth/auth.repository.ts:69-74 | Marking started twice is marking started once. |
| AuthRepository.StartActiveKeepsConsistent | src/modules/auth/auth.repository.ts:69-74 | Marking started keeps the row invariants, finished rows keeping their score and percentage. |
| AuthRepository.SnapshotHeadIsFirstActiveRow | src/modules/auth/auth.repository.ts:24-27 | The first active row seen at login is the row `findSubjectByUserId` returns, so login and the question hand-out read the same assignment. |
| AuthRepository.IsExistingUserIgnoresDetails | src/modules/auth/auth.repository.ts:17-29 | Which user an email finds does not depend on the test rows. |
| AuthService.Authenticate | src/modules/auth/auth.service.ts:27-39 | An unknown email gives "Not a existing user", and this holds in both directions. Success means the found user has a row with that id whose mobile number is the password. Both failures are 400. |
| AuthService.LoginGate | src/modules/auth/auth.service.ts:50-71 | Staff get their session. A candidate with no active test is refused. So is a candidate whose first active test is already started. Otherwise the candidate gets the active-question count of that subject. Any other role gets nothing. |
| AuthService.Login | src/modules/auth/auth.service.ts:25-76 | A refused credential check writes nothing. Otherwise the token and start flags are written first, and the role checks then run on the earlier snapshot. |
| AuthService.Logout | src/modules/auth/auth.service.ts:78-93 | An unknown email is refused and nothing is written; otherwise that user's token is cleared. |
| AuthService.LoginKeepsCredentials | src/modules/auth/auth.service.ts:43-47 | After the token update, the same email and password still find the same user with the same role. |
| AuthService.StartedSnapshot | src/modules/auth/auth.repository.ts:69-74 | After a login marks the rows started, the user's first active row is started. |
| AuthService.SecondLoginIsRejected | src/modules/auth/auth.service.ts:54-64 | A candidate who passed the credential checks with a test assigned cannot log in again: the next login fails with "Test already taken". |
| QuestionRepository.IsValidQuestionId | src/modules/test/question/question.repository.ts:114-118 | An active question with this id, or none exactly when there is none. |
| QuestionRepository.NextId | src/modules/test/question/question.repository.ts:35-52 | The id a new question or option gets is positive and above every id already in its table. |
| QuestionRepository.NewOptions | src/modules/test/question/question.repository.ts:35-52 | The created options are active and belong to the question. Read back as (text, correct), they are exactly the supplied list, in order. |
| QuestionRepository.WithQuestionText | src/modules/test/question/question.repository.ts:130-140 | Exactly the rows of this question get the new text. |
| QuestionRepository.RetireOptions | src/modules/test/question/question.repository.ts:141-147 | Exactly the question's active options become inactive; nothing is deleted. |
| QuestionRepository.CreateQuestion | src/modules/test/question/question.repository.ts:35-52 | One active question and its new options are appended. |
| QuestionRepository.UpdateQuestion | src/modules/test/question/question.repository.ts:130-150 | The question text is replaced, its active options are retired, and the supplied ones are appended. |
| QuestionRepository.CreatedQuestionIsNew | src/modules/test/question/question.repository.ts:35-52 | When every option belongs to an existing question, the created question's active options are exactly the supplied ones. |
| QuestionRepository.UpdateReplacesActiveOptions | src/modules/test/question/question.repository.ts:130-150 | After an update, the question's active options are exactly the supplied list, in order. |
| QuestionRepository.UpdateKeepsOtherQuestions | src/modules/test/question/question.repository.ts:141-147 | An update leaves every other question's active options as they were. |
| QuestionRepository.NewOptionsAnswer | src/modules/test/question/question.repository.ts:35-52 | Supplying a correct option gives the question an active correct option. |
| QuestionRepository.CreateKeepsAnswerable | src/modules/test/question/question.repository.ts:35-52 | Creating a question with a correct option keeps every active question answerable. |
| QuestionRepository.UpdateKeepsAnswerable | src/modules/test/question/question.repository.ts:130-150 | Updating a question with a correct option keeps every active question answerable. |
| QuestionService.CreateQuestionCheck | src/modules/test/question/question.service.ts:31-39 | An inactive or unknown subject gives 404 "Subject not found". Next, no correct option gives 400. The create passes exactly when the subject is active and some option is correct. |
| QuestionService.UpdateQuestionCheck | src/modules/test/question/question.service.ts:89-97 | An unknown or inactive question gives 400 "Question not found". Next, missing options or no correct option gives 400. The update passes exactly when both hold. |
| QuestionService.CreateQuestion | src/modules/test/question/question.service.ts:25-46 | A refused create writes nothing; an accepted one makes the repository insert. |
| QuestionService.UpdateQuestion | src/modules/test/question/question.service.ts:87-104 | A refused update writes nothing; an accepted one makes the repository update. |
| QuestionService.GuardedWritesKeepAnswerable | src/modules/test/question/question.service.ts:31-41 | Whatever a successful create or update writes, every active question still has an active correct option. |
| QuestionService.AnswerableQuestionsCanScore | src/modules/test/test.service.ts:219-226 | On an answerable bank, the correct-option lookup for an active question finds a non-empty list. |
| TestService.AssignCheck | src/modules/test/test.service.ts:102-127 | The guards run in order: subject not found (404), user not found (404), a pending test that is started or has no start flag (400), already assigned (400). The assignment passes exactly when all four are clear. |
| TestService.AssignTest | src/modules/test/test.service.ts:100-134 | A refused assignment writes nothing. An accepted one appends exactly the new row. |
| TestService.AssignmentKeepsConsistent | src/modules/test/test.service.ts:122-129 | A successful assignment keeps the row invariants. |
| TestService.NoSecondAssignment | src/modules/test/test.service.ts:122-127 | Once a subject is assigned to a user, assigning it again is refused. |
| TestService.UnstartedPendingTestDoesNotBlock | src/modules/test/test.service.ts:113-120 | A pending test whose start flag is false does not block assigning another subject. |
| TestService.ShuffleOptions | src/modules/test/test.service.ts:159-161 | Each question keeps its id and text; only its options move. |
| TestService.HandOutPermutes | src/modules/test/test.service.ts:155-161 | Whatever the random choices, the handed-out questions are a permutation of the fetched ones. Each keeps its id, its text and its options up to order. |
| TestService.ShuffleQuestionOptions | src/modules/test/test.service.ts:160 | One question's options are shuffled through an array: the result is the shuffle, a permutation of the options. |
| TestService.ShuffleEachQuestion | src/modules/test/test.service.ts:159-161 | The loop leaves each question with its options shuffled under its own choices. |
| TestService.StartTest | src/modules/test/test.service.ts:143-171 | With no active row, the user is refused with 400. Otherwise the result is the hand-out of that subject's active questions under the given choices. |
| TestService.IsCorrectMeaning | src/modules/test/test.service.ts:219-226 | An answer scores exactly when its question is active and the chosen option is the first active correct option of that question. |
| TestService.Mark | src/modules/test/test.service.ts:213-229 | The mark is at most the number of answers, and zero exactly when no answer scores. |
| TestService.ScoreAnswers | src/modules/test/test.service.ts:213-229 | The scoring loop computes exactly the mark. |
| TestService.UnknownQuestionScoresNothing | src/modules/test/test.service.ts:219-228 | An answer naming no active question adds nothing. |
| TestService.MarkCanExceedTotal | src/modules/test/test.service.ts:213-232 | The same right answer given twice scores twice, so the mark can exceed the question count. |
| TestService.PercentageCanExceedHundred | src/modules/test/test.service.ts:199-251 | Nothing bounds the stored percentage by 100: on a one-question subject, the right answer given twice passes every guard of the evaluation and the finished row records 200. |
| TestService.ScoreTextParses | src/modules/test/test.service.ts:232 | The score text `mark / total` reads back as exactly the mark and the total. |
| TestService.RoundedRatio | src/modules/test/test.service.ts:233 | With questions, the result is the percentage rounded half up. No questions and no marks give NaN. No questions with marks give Infinity. |
| TestService.Percentage | src/modules/test/test.service.ts:234 | A non-negative finite value is kept, NaN becomes 0, and Infinity stays. The result is never NaN. |
| TestService.PercentageInRange | src/modules/test/test.service.ts:233-234 | With at least one question and no more marks than questions, the percentage lies in [0, 100]. |
| TestService.PercentageEdges | src/modules/test/test.service.ts:233-234 | Full marks give 100; no questions and no marks give 0. |
| TestService.EvaluateCheck | src/modules/test/test.service.ts:204-237 | The guards run in order: test not found, user not found, already submitted, each 400. The check passes exactly when the first two find a row and no row of the pair is finished and inactive. |
| TestService.EvaluateTest | src/modules/test/test.service.ts:199-251 | A refused submission writes nothing. An infinite percentage is refused by the store. Otherwise the pair's active rows are finished with the score text and percentage, and the user found by that email is logged out. |
| TestService.ReassignCheck | src/modules/test/test.service.ts:259-285 | The guards run in order: no active row (404), not started (400), already completed (400), more than 10 unfinished rows (400). The reassignment passes exactly when it is started, not completed and within the limit. |
| TestService.ReassignTest | src/modules/test/test.service.ts:259-292 | A refused reassignment writes nothing; an accepted one writes the repository's reassignment. |
| TestService.BuildReassignFilter | src/modules/test/test.service.ts:319-345 | A subject, position or search constraint is present exactly when the id is positive or the search is non-empty, and it carries that value. |
| TestService.ReassignListingIsPendingStarted | src/modules/test/test.service.ts:319-345 | Only started, active, unfinished rows are listed. Unfiltered, all of them are. |
| TestService.ReassignableRowsAreListed | src/modules/test/test.service.ts:319-323 | Every row a pair can be reassigned from appears in the unfiltered reassignment listing. |
| Lifecycle.IterateCounts | src/modules/test/test.service.ts:274-282 | A measure that each round raises by one is raised by `k` after `k` rounds. |
| Lifecycle.IterateKeeps | src/modules/test/test.service.ts:274-282 | A property each round keeps holds after `k` rounds. |
| Lifecycle.StartActiveKeepsReassignCount | src/modules/auth/auth.repository.ts:69-74 | Logging in does not change the pair's unfinished-row count. |
| Lifecycle.RoundAddsAnAttempt | src/modules/test/test.repository.ts:340-353 | A login followed by a reassignment adds exactly one unfinished row of the pair. |
| Lifecycle.RoundFinishesNothing | src/modules/test/test.repository.ts:340-353 | A round finishes no row of the pair. |
| Lifecycle.RoundEndsActive | src/modules/test/test.repository.ts:340-353 | A round ends with a new active row of the pair. |
| Lifecycle.AssignmentIsFirstAttempt | src/modules/test/test.repository.ts:230-233 | The first assignment is the pair's only unfinished row. |
| Lifecycle.AttemptsShape | src/modules/test/test.service.ts:274-287 | After the assignment and `k` rounds, the pair has `k + 1` unfinished rows, none finished, and its last row is active. |
| Lifecycle.ReassignmentLimit | src/modules/test/test.service.ts:274-285 | After the assignment, `k` rounds and one more login, a reassignment passes exactly when `k < 10`. Otherwise it is refused with the limit message. |
| Lifecycle.LoginStartsPendingTest | src/modules/auth/auth.repository.ts:69-74 | When the pair's last row is active and none is finished, a login leaves a started row and no completed one. |
| Lifecycle.SubmittedTestCannotBeReassigned | src/modules/test/test.service.ts:266-272 | After a submission, the pair has a submitted row and reassignment is refused. |
| Lifecycle.NoSecondSubmission | src/modules/test/test.service.ts:236-237 | After a submission, a second submission of the same test is refused. |
| ResultService.ResultRows | src/modules/result/result.service.ts:56-127 | The listed rows are exactly the rows that meet the filter, and every listed row is one of them. |
| ResultService.ListedRowsAreCompleted | src/modules/result/result.service.ts:56-58 | Every listed row is a started and finished attempt. With no parameter set, every such row meets the filter. |
| ResultService.UnfilteredListingIsCompleted | src/modules/result/result.service.ts:56-127 | With no parameter set, the listing is exactly the completed attempts, in table order. |
| ResultService.SubjectConstraint | src/modules/result/result.service.ts:60 | A positive subject id keeps only that subject's attempts; any other id leaves the subject free. |
| ResultService.PercentageBands | src/modules/result/result.service.ts:92-102 | Each band is inclusive at both ends, and each one is stated in both directions. Any other text sets no constraint. A NULL percentage lies in no band. |
| ResultService.BandsOverlapAtBoundaries | src/modules/result/result.service.ts:95-101 | 50 and 75 each belong to two bands. |
| ResultService.ProfileDecisionTable | src/modules/result/result.service.ts:62-90 | All five cases of the position and experience ternary are covered, each as an if-and-only-if on the candidate's profile rows. Negative values set no constraint. |
| ResultService.SearchClauseMeaning | src/modules/result/result.service.ts:54-126 | A non-empty search matches when: its first word is in the first name and its second word, if any, in the last name; or the whole search is in one of the four contact fields. The empty search matches everyone. |
| ResultService.OneWordSearch | src/modules/result/result.service.ts:104-126 | A search without a space is a substring search of the four contact fields. |
| ResultService.FullNameSearch | src/modules/result/result.service.ts:54-116 | "first last" finds a user whose first name holds the first word and whose last name holds the second. |
| UserService.CreateUserCheck | src/modules/user/user.service.ts:41-67 | A taken email is refused with "Email already exist"; otherwise a taken mobile number is refused with "Mobile number already exist". Otherwise the outcome depends on the role, each case in both directions. An Admin or Super Admin account is written only for a Super Admin creator. A User account is written for anyone. Any other role is refused. |
| UserService.FindUserById | src/modules/user/user.repository.ts:238-240 | An active user with this id, or none exactly when there is none. |
| UserService.UpdateUserCheck | src/modules/user/user.service.ts:75-107 | An inactive or unknown account gives 404. Next, an email held by another active user gives the email error, and then a mobile number held by another active user gives the mobile error. An Admin account is written for a Super Admin and otherwise refused with the Super Admin message, both directions. A User account is written for anyone. A Super Admin account is always refused. |
| UserService.OnlySuperAdminManagesAdmins | src/modules/user/user.service.ts:41-107 | A caller other than a Super Admin can create and update User accounts only. |
| UserService.IsValidEmailMatchesPattern | src/modules/user/user.service.ts:361-364 | The email check accepts exactly the strings the regular expression matches. |
| UserService.NumericMobileIsValid | src/modules/user/user.service.ts:372-375 | A numeric mobile cell passes the mobile pattern exactly when it lies in 6000000000..9999999999. |
| UserService.SkipSpaces | src/modules/user/user.service.ts:409 | The leading-whitespace strip removes only whitespace, and what remains does not start with whitespace. |
| UserService.SkipTrailingSpaces | src/modules/user/user.service.ts:409 | The trailing-whitespace strip removes only whitespace, and what remains does not end with whitespace. |
| UserService.CollapseSpaces | src/modules/user/user.service.ts:409 | After collapsing, the only whitespace is single plain spaces. |
| UserService.RemoveWhiteSpacesNormalizes | src/modules/user/user.service.ts:407-414 | The clean-up always produces the normal form: single plain spaces, none at either end. |
| UserService.NormalizedIsFixed | src/modules/user/user.service.ts:407-414 | Text in normal form is left unchanged. |
| UserService.RemoveWhiteSpacesIdempotent | src/modules/user/user.service.ts:407-414 | Cleaning up twice is cleaning up once. |
| UserService.RemoveWhiteSpacesKeepsVisible | src/modules/user/user.service.ts:407-414 | The clean-up changes only whitespace: every other character stays, in order. |
| UserService.MissingColumnsReportsEvery | src/modules/user/user.service.ts:265-269 | A column is reported exactly when it is required and absent. |
| UserService.FindMissingColumns | src/modules/user/user.service.ts:261-269 | The loop collects exactly the absent required columns, in order. |
| UserService.RowError | src/modules/user/user.service.ts:285-292 | A row passes exactly when its email and mobile number have valid shapes. A bad email is reported first. |
| UserService.ScanErrorSticks | src/modules/user/user.service.ts:284-299 | Once a prefix of the sheet is refused, the whole sheet is refused with the same error. |
| UserService.ScanRows | src/modules/user/user.service.ts:280-299 | The row loop computes exactly the specified scan: the sets, the duplicate list or the first error. |
| UserService.ScanStopsAtFirstMalformedRow | src/modules/user/user.service.ts:284-292 | The sheet is refused exactly when some row is malformed, and the error is that of the first malformed row. |
| UserService.SetsHoldEveryRow | src/modules/user/user.service.ts:293-298 | With text cells and no duplicate, the sets hold exactly the rows' emails and mobile numbers. |
| UserService.DuplicatesAreRepeats | src/modules/user/user.service.ts:293-307 | With text cells, no duplicate is collected exactly when no two rows share an email or a mobile number. |
| UserService.NumericMobileRepeatIsMissed | src/modules/user/user.service.ts:293-297 | Two rows with the same numeric mobile number are both accepted: the set holds strings, so the number is never found. |
| UserService.TakenEmails | src/modules/user/user.repository.ts:361-378 | Every reported email is one of the sheet's. None is reported exactly when no stored user, active or not, holds one. |
| UserService.TakenMobiles | src/modules/user/user.repository.ts:386-404 | Every reported mobile number is one of the sheet's. None is reported exactly when no stored user holds one. |
| UserService.Validation | src/modules/user/user.service.ts:259-335 | An empty sheet gives 500 "Cannot convert undefined or null to object". A passing sheet has a first row with every required column and no malformed row. |
| UserService.AcceptedSheet | src/modules/user/user.service.ts:280-335 | Take an accepted sheet of text cells. Every row is well-formed. No email or mobile number occurs twice. None is held by a stored user. |
| UserService.RewrittenMeaning | src/modules/user/user.service.ts:341-342 | The rewrite replaces each listed column by the clean-up of its old cell and keeps every other column. |
| UserService.RewriteTwice | src/modules/user/user.service.ts:340-348 | With an idempotent clean-up, rewriting twice is rewriting once. |
| UserService.FormattedCellIsNormalized | src/modules/user/user.service.ts:341-342 | Every required column of a formatted row is text in normal form. |
| UserService.FormatIdempotent | src/modules/user/user.service.ts:340-350 | Formatting a formatted row changes nothing. |
| UserService.FormatRow | src/modules/user/user.service.ts:341-348 | The inner loop leaves exactly the rewrite of the row. |
| UserService.FormatRows | src/modules/user/user.service.ts:340-350 | The outer loop rewrites every row in place. |
| UserService.IsValidData | src/modules/user/user.service.ts:259-353 | A refused sheet returns the validation error and is left as it was. An accepted sheet is formatted in place and returned. |

Notes on where the code and its written description differ; the model follows the code:

- Reassignment needs an active row of the pair, not just any row. The limit error is a plain 400.
- `evaluateTest` never looks at the start flag.
- `assignTest` looks only at the user's first pending row.
- A subject with no questions scores 0% when nothing is marked (NaN fails `>= 0`). When something is marked, the percentage is Infinity, which the store is assumed to refuse (the schema is not part of this model).
- The stored percentage is not bounded by 100: the mark counts answers, not distinct questions, so a repeated right answer can push it to 200 (`TestService.PercentageCanExceedHundred`). Only with no more marks than questions does it stay in [0, 100] (`TestService.PercentageInRange`).
- A Super Admin account can never be updated.
- An empty sheet fails with the runtime's 500 error, not a 400.
- The percentage bands overlap at 50 and 75.
- A negative position id or experience level sets no constraint on the results listing.

## Left out

- HTTP controllers, guards, DTO validation and the exception filter: they only route requests, and the input validation (enums, trimming) happens before the core.
- Ordering, `skip`/`take` and the counting query of the listings: the listings are modelled as the filter condition and `ResultRows`, then `PaginationResponse` on the data handed to it.
- `dateFilterResponse` and every `updatedAt` window: they read the clock.
- The admin listings `fetchSubjects`, `fetchQuestions` and `fetchUsers`, filters included: they are paginated reads with a text search and no guard, write or rule of the test lifecycle.
- The queries of `fetchReassignTests` and `fetchUserTestResults`: only their filters are modelled (`BuildReassignFilter`/`MatchesReassignFilter`, `BuildResultFilter`/`MatchesResultFilter`).
- The repository writes `createAdmin`, `createUser`, `updateAdmin`, `updateUser` and `uploadBulkUsers`: only the decision of which write a guard permits (`UserWrite`) is modelled.
- xlsx parsing: a sheet is given as rows of text or whole-number cells.
- Fractional and negative numeric cells are not modelled.
- `getJsDateFromExcel`: it cannot be reached, since the DOB cell is always text after the clean-up. `FormatRow` proves that branch dead.
- The token generator and `Math.random`: tokens and random picks are parameters. No claim is made about the distribution of the shuffle.
- Transactions and concurrent requests: each operation is one atomic step.
- Store-assigned ids: `NextId` picks an id above every existing one, standing in for auto-increment.
- Uniqueness of primary keys is not stated as a table invariant. `AuthRepository.WithToken`, `AuthRepository.WithoutToken` and `QuestionRepository.WithQuestionText` rewrite every row carrying the id, which is the single row an `update` by unique id touches only when ids are unique, as the store guarantees.
- QuestionRepository.ReplaceOptions: the nested `updateMany` that retires the old options is taken to run before the nested `create` of the new ones, so the new options stay active; the store's order of nested writes is not part of this model.
- The schema default of the start flag is unknown, so it is a `Db` constructor parameter.
- TestService.EvaluateTest: the store's own message when it refuses an infinite percentage is not known; `STORE_REJECTED` stands in for it with status 500.
- TestService.RoundedRatio: computed exactly on rationals, not with IEEE double rounding; the two can differ only at halves that a double cannot represent.
- Text.Contains: the store's `contains` is modelled as a case-sensitive substring search; collation-dependent case folding is not modelled.
- AuthRepository.UpdateToken: a missing user, which the store reports as an error, is modelled as returning none; login never reaches that case.
- UserService.FormatRows: the formatting loops take the cell clean-up as a parameter. `IsValidData` passes the real one.
