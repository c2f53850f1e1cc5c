# QuickQuiz domain model

QuickQuiz is a browser quiz app. Players register and log in against one remote JSON
document that holds the user collection. They pick a category and answer timed multiple-choice
questions. The result screen merges the session's score into the player's best score for the
category. The leaderboard and the profile rank players by their category scores.

This project models the domain logic inside each screen. Each store access becomes a plain
value: "the collection before" is an input, and "the collection after" or the stored value is
an output. The modules are:

- `Model` (model.dfy): the user record. A field missing from the JSON is `None`. It also has
  the shared helpers: JavaScript truthiness of a string field, `scores?.[category] || 0` and
  `findIndex` by email.
- `Ranking` (ranking.dfy): the stable sort by one category's score, highest first, used by the
  leaderboard and the profile. ECMAScript's `Array.prototype.sort` is stable, so it is modelled
  as an insertion sort that keeps equal-score users in input order. The lemmas prove the result
  is a permutation, descending, and stable (the users with any given score keep their order).
- `Quiz` (quiz.dfy): the quiz screen's engine. `Session` is the screen state as a value. The
  transitions are `Started`, `Loaded`, `Selected`, `Advanced` (`handleNext`) and `Ticked` (one
  countdown step, advancing when the timer reaches 0). The class `QuizScreen` keeps the same
  state in fields, and each of its methods is proved to perform exactly one transition.
  `Invariant` is the engine's invariant:
  - the log has one record per passed question;
  - the score is the number of correct records;
  - record i is about question i;
  - a stored result is complete.
- `Results` (results.dfy): `updateUserScore`, as a method over the fetched array. It is proved
  against `Outcome`, which gives the status, and `Scratch`, which gives the array afterwards.
  `StoredAfter` is the collection in the store: the array is written back only on a new best.
- `Register` (register.dfy):
  - the schema's field rules;
  - the error map, built by assigning each failed check's message to its field (a loop in
    `CollectErrors`, proved against the fold `ErrorsOf`);
  - the duplicate-email check and the append of the new record.
- `Login` (login.dfy): the credential search and the identity it stores. Its outcome holds no
  collection, so login cannot change the store.
- `Leaderboard` (leaderboard.dfy): the filter for malformed records, the sorted board and the
  rows. Each row has a rank, name, score and highlight.
- `Profile` (profile.dfy): the rank loop over the four fixed categories, which ranks over the
  unfiltered collection. It also gives the user's best scores, the number of categories played
  and the highest score.

Where the code and the documented behaviour disagree, the model follows the code:

- **Timeouts.** A timed-out question is graded `selected == answer` with an empty selection.
  It is recorded as "No answer", but it counts as correct when the question's answer is the
  empty string. A timeout is therefore sure to score nothing only when no answer is empty
  (`Quiz.NeverAnswering` requires `NoEmptyAnswer`).
- **Shown answer versus score.** The score counts records whose selection equals the right
  answer, not records whose shown `userAnswer` equals it. The two differ when a timed-out
  question's right answer is "No answer": the record shows the right answer but scores nothing
  (`Quiz.NoAnswerMismatch`). They also differ on the empty answer above
  (`Quiz.EmptyAnswerMismatch`). When no right answer is "" or "No answer", the score is the number
  of records showing the right answer (`Quiz.ScoreCountsShown`).
- **The first countdown includes the loading.** The countdown starts on mount, and the reset
  runs only when the question index changes. Ticks that fire while the questions load come off
  the first question's 15 units, so the first question does not get a countdown of its own. A
  load that takes 15 ticks or more leaves the timer at 0. The effect then never runs again, the
  first question never times out, nothing is stored automatically, and only the Next button,
  which is enabled at 0, moves on (`Quiz.LoadingEatsCountdown`).
- **Password length.** The shortest password accepted is 3 characters, even though the message
  says "Minimum 4 characters".
- **Ranks.** The profile ranks over all records, but the leaderboard ranks only the records
  that pass its filter. A nameless record ahead of a player moves the two ranks apart
  (`Leaderboard.RanksDiffer`).

## Model

| member | source | states |
|---|---|---|
| Model.FindByEmail | src/resultsscreen.js:48 | `findIndex` by email: the index found holds the email and no earlier record does; None exactly when no record has the email |
| Model.FindUnique | src/ProfileScreen.js:27 | when emails are unique, the lookup finds the one record that carries the email |
| Ranking.InsertPermutes | src/LeaderboardScreen.js:44-46 | inserting one user into the sorted list adds exactly that user (a multiset equality) |
| Ranking.InsertDescending | src/LeaderboardScreen.js:44-46 | insertion keeps a list descending in the category score |
| Ranking.InsertTies | src/LeaderboardScreen.js:44-46 | insertion puts the new user after every tie already present, so the order among equal scores is the arrival order |
| Ranking.InsertUnique | src/LeaderboardScreen.js:44-46 | inserting a user with a fresh email keeps emails unique |
| Ranking.SortSpec | src/LeaderboardScreen.js:44-46 | the sorted copy has the same length, is a permutation of the input, and is non-increasing in the category score, a missing score counting as 0 |
| Ranking.SortStable | src/LeaderboardScreen.js:44-46 | for every score value, the users with that score appear in the sorted copy in their input order (stability) |
| Ranking.SortCountAbove | src/ProfileScreen.js:33-35 | sorting keeps the number of users scoring above any value |
| Ranking.SortUnique | src/ProfileScreen.js:33-35 | sorting keeps emails unique |
| Ranking.TiesAppend | src/LeaderboardScreen.js:44-46 | the equal-score subsequence of a concatenation is the concatenation of the subsequences |
| Ranking.CountAboveAppend | src/ProfileScreen.js:33-37 | counting users above a score distributes over concatenation |
| Ranking.SplitAtLeast | src/ProfileScreen.js:33-37 | when every user scores at least v, the length is the users above v plus the ties at v |
| Quiz.CategoryName | src/quizscreen.js:9 | the category is the query parameter when that is non-empty, otherwise "Unknown"; never empty |
| Quiz.TrimStartSpec | src/quizscreen.js:84 | the left trim removes exactly the leading ECMAScript white space and line terminators |
| Quiz.TrimEndSpec | src/quizscreen.js:84 | the right trim removes exactly the trailing white space and line terminators |
| Quiz.TrimIsSlice | src/quizscreen.js:84 | `trim` returns a contiguous slice of the input, with only white space outside it and none at either end |
| Quiz.TrimIdempotent | src/quizscreen.js:84 | trimming the stored category again changes nothing |
| Quiz.GradeHonest | src/quizscreen.js:63-71 | a record carries its question's right answer, and when that answer is neither "" nor "No answer" the record is correct iff its shown `userAnswer` is the right answer |
| Quiz.NoAnswerMismatch | src/quizscreen.js:63-71 | for a question whose right answer is "No answer", a timeout shows the right answer but is not correct |
| Quiz.EmptyAnswerMismatch | src/quizscreen.js:63-71 | for a question whose right answer is "", a timeout shows "No answer" but is correct |
| Quiz.CountCorrectIsShown | src/quizscreen.js:73-74 | when every record is correct exactly when it shows the right answer, the number of correct records is the number of records showing the right answer |
| Quiz.ScoreCountsShown | src/quizscreen.js:73-88 | when no question's right answer is "" or "No answer", the running score and the stored score equal the number of records showing the right answer |
| Quiz.CountCorrect | src/quizscreen.js:74 | the number of correct records never exceeds the log length |
| Quiz.CountCorrectAppend | src/quizscreen.js:73-74 | appending a record adds one to the count exactly when the record is correct |
| Quiz.Started | src/quizscreen.js:9-17 | the mount state satisfies the engine's invariant, is loading, and has stored nothing |
| Quiz.LoadedSpec | src/quizscreen.js:29-41 | loading keeps the invariant and ends loading; a failed fetch or a missing category is the state with error "Failed to load questions." and no questions; otherwise the category's questions are loaded, with the index at 0 and an empty log |
| Quiz.Advanced | src/quizscreen.js:60-97 | `handleNext` keeps the index in range |
| Quiz.AdvanceWithoutQuestions | src/quizscreen.js:61 | with no questions, advancing changes nothing |
| Quiz.AdvanceStep | src/quizscreen.js:63-80 | a non-final advance appends exactly the graded record and keeps the earlier records; the score rises by 1 iff the record is correct; the index rises by one and stays in range; the selection is cleared; the timer is reset to 15; the invariant is kept |
| Quiz.AdvanceFinal | src/quizscreen.js:81-92 | the final advance stores the trimmed category, the new score and the full log, and changes nothing else; the log has one record per question, and the score is the number of correct records, between 0 and the question count |
| Quiz.AdvancePreserves | src/quizscreen.js:60-97 | every advance keeps the engine's invariant (score = number of correct records, records = index) |
| Quiz.FinishIdempotent | src/quizscreen.js:81-92 | pressing Finish twice stores the same result as pressing it once |
| Quiz.Ticked | src/quizscreen.js:49-58 | a countdown step keeps the index in range |
| Quiz.TickSpec | src/quizscreen.js:49-58 | a tick never goes below 0 and counts down by one; reaching 0 triggers exactly one advance; a change of index comes with the timer reset to 15; the invariant is kept |
| Quiz.CanAdvanceSpec | src/quizscreen.js:139-152 | the Next/Finish button is enabled iff an option is selected or the timer is 0; with nothing selected every tick but the last leaves it disabled; selecting an option enables it and keeps the invariant |
| Quiz.TickedNInvariant | src/quizscreen.js:54-58 | any number of ticks keeps the invariant |
| Quiz.CountdownExpires | src/quizscreen.js:54-56 | letting the countdown run out is one advance with the timer at 0 |
| Quiz.TimeoutLog | src/quizscreen.js:66-71 | the log of unanswered questions has one record per question |
| Quiz.TimeoutLogNoAnswer | src/quizscreen.js:66-71 | every record of that log reads "No answer", and the log has no correct record |
| Quiz.TimeoutStep | src/quizscreen.js:55-80 | the rest of a countdown (full or partly elapsed) before the last question appends the "No answer" record, adds no point and moves on with a full timer |
| Quiz.TimeoutLast | src/quizscreen.js:55-92 | the rest of the countdown on the last question stores the result, closed by one "No answer" record |
| Quiz.TimeoutAdvance | src/quizscreen.js:49-58 | the ticks for the remaining questions split into the rest of this countdown to the next question plus the ticks for the rest |
| Quiz.AllTimeouts | src/quizscreen.js:49-97 | with nothing ever selected, the rest of the current countdown plus 15 ticks per later question store the result with one "No answer" record per remaining question and no added point |
| Quiz.NeverAnswering | src/quizscreen.js:49-97 | on a loaded quiz whose first countdown has not reached 0 (whatever the loading left of it) and that is never answered, the stored result has score 0 and one incorrect "No answer" record per question |
| Quiz.TimeoutTicks | src/quizscreen.js:49-58 | with a full timer the ticks to time every remaining question out are 15 per question |
| Quiz.TicksWithoutQuestions | src/quizscreen.js:54-61 | while no questions are loaded the countdown runs down to 0 and stays there with nothing else changed |
| Quiz.TicksAtZero | src/quizscreen.js:54-58 | at timer 0 further ticks change nothing |
| Quiz.LoadingEatsCountdown | src/quizscreen.js:17-61 | a load after t ticks leaves the first question 15 - t (floored at 0) with nothing stored; from 15 ticks on the timer is stuck at 0 and only the enabled button moves on |
| Quiz.QuizScreen.constructor | src/quizscreen.js:9-17 | the fields hold the mount state |
| Quiz.QuizScreen.Load | src/quizscreen.js:21-46 | the fetch effect performs the `Loaded` transition and keeps the invariant |
| Quiz.QuizScreen.SelectOption | src/quizscreen.js:139 | clicking an option performs `Selected` and keeps the invariant |
| Quiz.QuizScreen.HandleNext | src/quizscreen.js:60-97 | `handleNext` performs the `Advanced` transition on the fields and keeps the invariant |
| Quiz.QuizScreen.MoveOn | src/quizscreen.js:76-80 | the non-final branch, with the index change's timer reset, performs the `Advanced` transition |
| Quiz.QuizScreen.Finish | src/quizscreen.js:81-92 | the final branch performs the `Advanced` transition and stores the result |
| Quiz.QuizScreen.Tick | src/quizscreen.js:54-58 | one interval firing performs `Ticked` and keeps the invariant |
| Results.Normalize | src/resultsscreen.js:56 | a user without scores gets exactly the empty map and a user with scores is returned unchanged, so every category score and every other field is kept |
| Results.Scratch | src/resultsscreen.js:55-62 | the handler's array keeps its length |
| Results.UpdateUserScore | src/resultsscreen.js:29-83 | the method on the fetched array returns the status `Outcome` gives and leaves the array `Scratch` gives |
| Results.OutcomeSpec | src/resultsscreen.js:30-75 | no result, a missing email or category, and an unknown email each give their own status; a new best is reported iff the score beats the first matching user's previous best; every other status leaves the store unchanged |
| Results.OnlyCategoryChanges | src/resultsscreen.js:48-62 | on a new best only the first matching user changes, only in its scores map, and only `category`'s key gains the new score; other users and other categories are unchanged |
| Results.StoredNeverDecreases | src/resultsscreen.js:59-62 | no stored score of any user in any category goes down |
| Results.BestIsMaximum | src/resultsscreen.js:59-61 | afterwards the user's best in the category is the larger of the old best and the new score |
| Results.EmailsKept | src/resultsscreen.js:55-62 | the merge changes no email |
| Results.SameEmailsSameFind | src/resultsscreen.js:48 | collections with the same emails position by position give the same lookup result |
| Results.Idempotent | src/resultsscreen.js:60-62 | applying the same result twice stores the same collection as once, and the second application reports "did not beat" |
| Results.KeepsUnique | src/resultsscreen.js:55-62 | the merge keeps emails unique |
| Results.ScratchNormalises | src/resultsscreen.js:56-74 | when the score does not beat the best, the handler's array has the user normalised but the store is unchanged |
| Results.StatusMessagesDistinct | src/resultsscreen.js:35-92 | each status shows its own line, so the line tells the outcome |
| Results.CategoriesPlayedAfter | src/resultsscreen.js:56-61 | on a new best the user's number of categories played grows by one iff the category had no stored score, and otherwise stays the same |
| Register.FirstLine | src/Register.js:16-17 | the text the lookaheads see is the prefix before the first line terminator |
| Register.PasswordRule | src/Register.js:12-19 | a password passes iff it has 3 to 6 characters and a capital, a digit and one of `!@#$%^&*` before any line break |
| Register.FormRules | src/Register.js:8-41 | the form passes the schema iff the name has at least 3 characters, the email passes the email check, the mobile is 10 digits and the password passes; the error map is empty iff there is no issue |
| Register.CollectErrors | src/Register.js:42-45 | the `forEach` loop builds exactly the fold `ErrorsOf` of the issues |
| Register.ErrorsOfSpec | src/Register.js:42-45 | a field has an entry iff some issue names it, and the entry is the message of the last issue naming it |
| Register.ErrorsOfAppend | src/Register.js:42-45 | assigning two runs of issues in turn puts the second run's entries over the first's |
| Register.PasswordMessage | src/Register.js:12-45 | the password entry is the pattern message when the pattern fails, otherwise the length message that fails; there is no entry for a valid password |
| Register.ErrorsSplit | src/Register.js:8-45 | the error map is the union of the four fields' maps |
| Register.FieldMaps | src/Register.js:9-11 | the name, email and mobile maps hold their field's single message exactly when that rule fails |
| Register.ErrorMap | src/Register.js:8-48 | the error map has one entry per failing field, with that field's message |
| Register.SubmitSpec | src/Register.js:40-79 | an invalid form is refused with exactly the non-empty error map of its issues (field by field as `Register.ErrorMap` states); a known email is refused; a successful save appends the new record at the end with the old collection as prefix; nothing else changes the collection |
| Register.MessagesDistinct | src/Register.js:40-79 | a validation failure sets no status line; "already exists", "successful" and "failed to save" each set their own |
| Register.SubmitKeepsUnique | src/Register.js:58-65 | registration keeps emails unique |
| Register.RegisterThenLogin | src/Login.js:24-30 | after a successful registration (src/Register.js:65), logging in with the same email and password succeeds and stores the typed name |
| Login.FindCredentials | src/Login.js:24-26 | `find`: the record found has both the email and the password, no earlier one does, and None means no record has both |
| Login.DisplayName | src/Login.js:30 | the stored name is the record's name when it is non-empty, otherwise "Player"; never empty |
| Login.LoginSpec | src/Login.js:23-34 | login succeeds iff some record has exactly the typed email and password; it then stores the typed email and the first such record's display name; otherwise it shows "Invalid Email or Password!" |
| Login.MissingRecordRejects | src/Login.js:23 | without a `record` in the document, nobody can log in |
| Leaderboard.InitialCategoryListed | src/LeaderboardScreen.js:9-13 | the category shown first is the first of the four category buttons |
| Leaderboard.ValidUsers | src/LeaderboardScreen.js:25-32 | the filter never grows the collection |
| Leaderboard.KeyCountImplied | src/LeaderboardScreen.js:26-31 | the key-count test is implied by a truthy email: a record passes iff it is an object with a truthy email and name |
| Leaderboard.ValidUsersAppend | src/LeaderboardScreen.js:25-32 | the filter works record by record, so it distributes over concatenation and keeps input order |
| Leaderboard.ValidUsersMembers | src/LeaderboardScreen.js:25-32 | a user is kept iff it came from a record that passes the filter |
| Leaderboard.SortedSpec | src/LeaderboardScreen.js:44-46 | the board's order is a permutation of the valid users that is descending and stable, and every user on it has a truthy email and name |
| Leaderboard.NoPlayersSpec | src/LeaderboardScreen.js:79-96 | "No players found." shows iff no record passes the filter |
| Leaderboard.BoardRows | src/LeaderboardScreen.js:80-91 | every row is shown; row i has rank i + 1, the i-th sorted user's name and category score (0 when absent), and is highlighted iff its email is the stored one |
| Leaderboard.BoardDescending | src/LeaderboardScreen.js:44-46 | the scores shown never increase down the board |
| Leaderboard.OneHighlight | src/LeaderboardScreen.js:85 | with unique emails, at most one row is highlighted |
| Leaderboard.RanksAgree | src/ProfileScreen.js:33-37 | when every record is a named user with an email, the profile (this range) and the leaderboard (src/LeaderboardScreen.js:80-88) agree: the profile's rank is the rank on the highlighted leaderboard row |
| Leaderboard.RanksDiffer | src/ProfileScreen.js:33-37 | a nameless record ahead of a player gives profile rank 2, but the leaderboard's filter (src/LeaderboardScreen.js:25-32) gives it rank 1 |
| Profile.RankPresence | src/ProfileScreen.js:36-37 | a rank is "N/A" iff no record has the email; otherwise it lies in 1..number of records |
| Profile.RankFormula | src/ProfileScreen.js:33-37 | with unique emails, a rank is 1 + the users scoring strictly higher + the users with the same score earlier in the collection |
| Profile.RankTieOrder | src/ProfileScreen.js:33-37 | of two users with the same score, the earlier one in the collection ranks strictly ahead |
| Profile.ComputeRanks | src/ProfileScreen.js:31-38 | the loop fills a rank for exactly the four categories, each equal to the category's `RankIn` |
| Profile.CategoriesPlayedSpec | src/ProfileScreen.js:109 | the categories played are the keys of the scores map; none played means every category shows 0; a player with one has a highest score bounding every stored score |
| Profile.MaxValue | src/ProfileScreen.js:113 | the maximum of a non-empty scores map is one of its values and bounds all of them |
| Profile.HighestScoreSpec | src/ProfileScreen.js:113 | the highest score is 0 without a scores map and none for an empty map; otherwise it is a stored score at least as large as every other |
| Profile.MissingUserProfile | src/ProfileScreen.js:27-28 | a user who is not found shows as an empty record: score 0 in every category, no categories played, highest score 0 |
| Profile.FoundUserProfile | src/ProfileScreen.js:27-28 | a user who is found shows the first matching record and its stored scores |

## Left out

- Network access is not modelled. The fetches and writes of the JSON documents and the parsing
  of the responses are not part of this model. The fetched `record` is a parameter, and the
  written collection is a result (`StoredAfter`, `Response.stored`).
- Fetch and parse failures collapse, except for questions. The messages for network errors and
  caught exceptions are not modelled: "Unable to connect", "Network error while saving" and
  "Failed to update score in database". A failed question fetch is `Loaded(s, None)`.
- The results write is awaited, but its HTTP status is not inspected. A rejected write ends in
  the catch branch ("Failed to update score in database."), and that branch is not modelled.
- `localStorage` is represented by values passed in and out: `userEmail`, `username` and
  `quizDetails`. The JSON encoding of the stored quiz result is not modelled.
- React rendering, hooks and effect scheduling are not modelled, beyond the timer effect folded
  into `Ticked` and the index-change reset folded into `Advanced`.
- Routing (src/App.js), the start screen and the category-selection screen are not part of this
  model.
- Real time is not modelled: `setInterval` and the navigation delays from `setTimeout`. The
  countdown is the discrete `Tick`.
- Register.EmailIssues: zod's `email()` format rule is not visible, so it is the parameter
  `isEmail`.
- Register.PasswordIssues: lengths count Unicode scalar values, while JavaScript counts UTF-16
  code units. The two differ for characters outside the Basic Multilingual Plane.
- Register.NameIssues: the name's minimum length also counts Unicode scalar values, not UTF-16
  code units. A name of two emoji has JavaScript length 4 and passes, but the model rejects it.
- Concurrent clients are not modelled. Lost updates between clients that rewrite the whole
  collection are concurrency and out of scope.
- Other screens assume object records. Only the leaderboard sees raw entries (`Entry`). Elsewhere
  a `null` entry makes the code's `find` throw, and that error path is not modelled. A JSON
  `null` field value is treated as an absent field.
- Quiz.Lookup: a category key mapped to `null` or another falsy value is not modelled. The code treats it as missing, and the model's question lists are always arrays.
- `decodeURIComponent` of the category parameter is not modelled: the decoded string is the
  parameter.
- Profile.HighestScore: the `-Infinity` that `Math.max` gives for a present but empty scores map
  is `None`, not a float.
- Quiz.QuizScreen.Load: fetching again when the `category` parameter changes on a mounted screen
  is not modelled. That re-run resets neither `loading`, the index, the score nor the log, so new
  questions can replace the old ones mid-quiz and leave the index out of range. The model loads
  once, while the screen is loading.
