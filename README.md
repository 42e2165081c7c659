# QA Scorecard scoring rules, in Dafny

This project models the two scoring rule evaluators of the QA Scorecard, a
call-centre quality-assurance tool in which an auditor answers twelve
Yes / No / not-applicable questions about a consultant's call.

- `WeightedScorecard` (`weighted_scorecard.dfy`) models the Digital Support
  scorecard of `app.py`. Each question has a fixed weight. A "Yes" or "N/A"
  answer earns that weight and any other answer earns nothing. Two rules are
  hard-coded: a "No" on question 2 (customer validation) or question 10
  (branch referral) scores 0, and an "N/A" on question 2 scores a flat 12.5%.
  The weights are exact four-place decimals, so they are kept as whole
  ten-thousandths: 833 stands for 0.0833 and 10000 for 1.0.
- `AuditCapture` (`audit_capture.dfy`) models the audit capture page
  `Scoring_Dashboard.py`. It looks up the department of the selected team
  leader. It walks the department's question rows, building the answer map
  and the list of critical question numbers. It then scores the audit: a "No"
  on any critical question scores 0, and otherwise the score is the
  percentage of "Yes" among the answers that are not "NA", or 0 when all
  answers are "NA".

Answers are strings, as in the source. Any answer other than the expected
choices is scored as the code scores it: it earns no weight in `app.py`, and
it counts as valid but not as "Yes" on the dashboard. The page keys its
answer map by the string `q<n>`. That string determines the question number
n and is determined by it, so the map here is keyed by n.

Facts about the code that the model keeps:
- The dashboard counts only the answers present in the map, one per distinct
  question number of the loaded rows. It does not iterate over the numbers
  1 to 12, and there is no default "No" for a missing question.
- Every critical number comes from a row whose answer is recorded, so the
  critical lookup never misses. `CollectAnswers` proves this.
- Not-applicable is spelled "N/A" in `app.py` and "NA" on the dashboard.
- In `app.py` only question 2 has an "N/A" rule; an "N/A" on question 10
  earns its weight like any other "N/A".

## Model

| member | source | states |
|---|---|---|
| `WeightedScorecard.CalcWeights` | app.py:43-52 | one awarded value per answer, in order; the value at 1-based position i is the weight of question i for "Yes" or "N/A" and 0 for anything else; positions past 12 earn 0 |
| `WeightedScorecard.TotalScore` | app.py:54-69 | a score exists exactly when there are at least ten answers (otherwise indexing questions 2 and 10 fails); every score lies between 0 and 1.0 |
| `WeightedScorecard.WeightedPositions` | app.py:25-38 | exactly questions 1 to 12 carry a weight; question 10 weighs 0.0837 and the others 0.0833 |
| `WeightedScorecard.WeightsSumToUnit` | app.py:24-38 | the twelve weights add up to exactly 1.0, and so does every longer prefix of positions |
| `WeightedScorecard.WeightTotalBeyondTwelve` | app.py:47 | positions past 12 add no weight to the running total |
| `WeightedScorecard.WeightTotalAtMostUnit` | app.py:25-38 | the weights of any prefix of positions add up to at most 1.0 |
| `WeightedScorecard.WeightTotalMonotone` | app.py:25-38 | the running total of the weights never decreases |
| `WeightedScorecard.AwardedPrefix` | app.py:45-52 | the awarded list of a prefix of the answers is the prefix of the awarded list |
| `WeightedScorecard.AwardedAtMostWeights` | app.py:45-52 | the awarded sum is at most the weights of the answered positions, and equal to them when every answer earns |
| `WeightedScorecard.AwardedWithinUnit` | app.py:69 | the weighted sum is at most 1.0 for any answers, of any length |
| `WeightedScorecard.CriticalNoZeroesTotal` | app.py:61-65 | a "No" on question 2 or 10 gives 0 whatever the other answers are |
| `WeightedScorecard.ValidationNotApplicableFlat` | app.py:64-67 | "N/A" on question 2 gives exactly 12.5%, except that a "No" on question 10 takes precedence and gives 0 |
| `WeightedScorecard.OtherwiseWeightedSum` | app.py:64-69 | without an override the total is the sum of the awarded weights |
| `WeightedScorecard.AllYesScoresUnit` | app.py:43-69 | twelve "Yes" answers score exactly 1.0 |
| `AuditCapture.DepartmentOf` | Scoring_Dashboard.py:64-66 | the department of the first team row whose leader matches; "" when no row matches |
| `AuditCapture.CollectAnswers` | Scoring_Dashboard.py:83-97 | the answer map has one key per distinct question number of the rows; the critical list holds the critical rows' numbers in row order; every critical number is a key of the map |
| `AuditCapture.AnswerMapKeys` | Scoring_Dashboard.py:86-97 | the keys of the answer map are exactly the question numbers of the rows |
| `AuditCapture.CriticalNumbersAreRowNumbers` | Scoring_Dashboard.py:90-91 | a number is in the critical list exactly when some critical row carries it |
| `AuditCapture.CriticalNumbersKeepRowOrder` | Scoring_Dashboard.py:86-91 | the critical list of consecutive runs of rows is the first run's list followed by the second's |
| `AuditCapture.AnswerMapLastWins` | Scoring_Dashboard.py:93-97 | a row whose number no later row repeats has its own answer in the map (a later row with the same number overwrites it) |
| `AuditCapture.DistinctRowsOneKeyEach` | Scoring_Dashboard.py:83-97 | with distinct question numbers the map has exactly as many entries as there are rows |
| `AuditCapture.YesWithinValid` | Scoring_Dashboard.py:115-116 | the "Yes" count never exceeds the valid count |
| `AuditCapture.Percentage` | Scoring_Dashboard.py:117 | the percentage lies in [0, 100]; it is 100 exactly when something is valid and every valid answer is "Yes"; it is 0 exactly when there is no "Yes" |
| `AuditCapture.Score` | Scoring_Dashboard.py:108-117 | the audit score always lies in [0, 100] |
| `AuditCapture.CriticalNoForcesZero` | Scoring_Dashboard.py:108-113 | a critical question answered "No" forces the score to 0, whatever the other answers are |
| `AuditCapture.NoCriticalFailureScoresCounts` | Scoring_Dashboard.py:108-117 | critical questions answered anything but "No", such as "Yes" or "NA" (or no critical questions at all), leave the score to the counts |
| `AuditCapture.CountsOnNewAnswer` | Scoring_Dashboard.py:115-116 | a new "Yes" adds one to both counts, a new "NA" to neither, and any other answer to the valid count only |
| `AuditCapture.NothingValidScoresZero` | Scoring_Dashboard.py:117 | when every answer is "NA", or there are none, the score is 0 |
| `AuditCapture.AllYesScoresFull` | Scoring_Dashboard.py:115-117 | at least one answer and all of them "Yes" gives 100 |
| `AuditCapture.ScoreSubmission` | Scoring_Dashboard.py:83-117 | scoring the collected answers is always defined (no critical lookup misses) and gives a score in [0, 100] |
| `AuditCapture.CriticalRowNoScoresZero` | Scoring_Dashboard.py:86-113 | a critical row answered "No", whose number no later row repeats, makes the submitted audit score 0 |
| `AuditCapture.LaterRowMasksCriticalNo` | Scoring_Dashboard.py:93-113 | a later row with the same number overwrites a critical "No": rows for question 2 (critical) answered "No" then "Yes" score 100 |

## Left out

- The Streamlit user interface is left out: page setup, forms, select boxes
  and radio buttons, messages and the score breakdown table. The choices made
  on the form become parameters: the answer list in `app.py`, and one
  response per question row on the dashboard.
- CSV persistence in `app.py` (`ensure_csv_exists`, `append_record`, the
  download) is file I/O and is left out.
- The Supabase client and its loaders (`load_team_leaders`,
  `load_consultants`, `load_questions`) and the insert of the audit record are
  network calls and are left out. Their results are parameters of the model:
  sequences of team rows and question rows.
- Record assembly and timestamps are left out. They only build a dictionary
  for storage.
- WeightedScorecard.TotalScore: computes in exact ten-thousandths, so it does
  not model the rounding error of summing binary floating-point weights.
- AuditCapture.Score: the score is the exact ratio yes × 100 / valid. It is
  not rounded to two decimals, because the model leaves out float rounding.
- AuditCapture.DepartmentOf: team rows are records with string fields, so a
  row lacking a `team_leader` or `department` entry (a lookup error in the
  source) is not modelled.
- AuditCapture.Percentage: its ensures describe the exact, unrounded ratio.
  With the source's rounding to two decimals, a ratio just under 100 or just
  above 0 (possible once more than 20000 answers are valid) would print as
  100.0 or 0.0.
