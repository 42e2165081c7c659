/**
 The QA audit capture page: the department is looked up from the selected
 team leader, the department's question rows are turned into an answer map
 and a list of critical question numbers, and the audit is scored.

 Scoring: a "No" on any critical question forces the score to 0; otherwise
 the score is the share of "Yes" answers among the answers that are not
 "NA", as a percentage, and 0 when every answer is "NA".

 The answer map of the page is keyed by the string `q<n>`; since that key is
 determined by, and determines, the question number n, the map here is keyed
 by n itself.
 */
module AuditCapture {

  /** A row of the team leaders table. */
  datatype TeamRow = TeamRow(teamLeader: string, department: string)

  /** A row of a department's question set. */
  datatype QuestionRow = QuestionRow(number: int, text: string, isCritical: bool)

  // ---------------------------------------------------------------------------
  // Department lookup
  // ---------------------------------------------------------------------------

  /** The department of the first row led by `leader`, or "" when no row is. */
  function DepartmentOf(teamData: seq<TeamRow>, leader: string): (department: string)
    ensures (forall i :: 0 <= i < |teamData| ==> teamData[i].teamLeader != leader) ==> department == ""
    ensures forall i :: (0 <= i < |teamData| && teamData[i].teamLeader == leader &&
      (forall j :: 0 <= j < i ==> teamData[j].teamLeader != leader)) ==>
        department == teamData[i].department
  {
    if teamData == [] then ""
    else if teamData[0].teamLeader == leader then teamData[0].department
    else
      var rest := DepartmentOf(teamData[1..], leader);
      assert forall i :: 1 <= i < |teamData| ==> teamData[i] == teamData[1..][i - 1];
      rest
  }

  // ---------------------------------------------------------------------------
  // Collecting answers and critical questions
  // ---------------------------------------------------------------------------

  /** The answer map after the first |rows| rows: a later row overwrites an earlier one with its number. */
  function AnswerMap(rows: seq<QuestionRow>, responses: seq<string>): map<int, string>
    requires |responses| == |rows|
  {
    if rows == [] then map[]
    else
      var n := |rows| - 1;
      AnswerMap(rows[..n], responses[..n])[rows[n].number := responses[n]]
  }

  /** The numbers of the critical rows, in row order. */
  function CriticalNumbers(rows: seq<QuestionRow>): seq<int>
  {
    if rows == [] then []
    else
      var n := |rows| - 1;
      CriticalNumbers(rows[..n]) + (if rows[n].isCritical then [rows[n].number] else [])
  }

  /** The set of question numbers the rows carry. */
  function RowNumbers(rows: seq<QuestionRow>): set<int>
  {
    set i | 0 <= i < |rows| :: rows[i].number
  }

  /**
   Walks the question rows once, recording each row's answer under its
   number and appending the numbers of critical rows. `responses[i]` is
   the choice made for `rows[i]`.
   */
  method CollectAnswers(rows: seq<QuestionRow>, responses: seq<string>)
    returns (answers: map<int, string>, criticalNumbers: seq<int>)
    requires |responses| == |rows|
    ensures answers == AnswerMap(rows, responses)
    ensures criticalNumbers == CriticalNumbers(rows)
    ensures answers.Keys == RowNumbers(rows)
    ensures forall n :: n in criticalNumbers ==> n in answers
  {
    answers := map[];
    criticalNumbers := [];
    for i := 0 to |rows|
      invariant answers == AnswerMap(rows[..i], responses[..i])
      invariant criticalNumbers == CriticalNumbers(rows[..i])
    {
      var q := rows[i];
      if q.isCritical {
        criticalNumbers := criticalNumbers + [q.number];
      }
      answers := answers[q.number := responses[i]];
      assert rows[..i + 1][..i] == rows[..i];
      assert responses[..i + 1][..i] == responses[..i];
    }
    assert rows[..|rows|] == rows;
    assert responses[..|rows|] == responses;
    AnswerMapKeys(rows, responses);
    CriticalNumbersAreRowNumbers(rows);
  }

  /** The answer map has exactly one key per distinct question number. */
  lemma {:induction false} AnswerMapKeys(rows: seq<QuestionRow>, responses: seq<string>)
    requires |responses| == |rows|
    ensures AnswerMap(rows, responses).Keys == RowNumbers(rows)
  {
    if rows != [] {
      var n := |rows| - 1;
      AnswerMapKeys(rows[..n], responses[..n]);
      assert RowNumbers(rows) == RowNumbers(rows[..n]) + {rows[n].number} by {
        forall x | x in RowNumbers(rows) ensures x in RowNumbers(rows[..n]) + {rows[n].number} {
          var i :| 0 <= i < |rows| && rows[i].number == x;
          if i < n {
            assert rows[..n][i] == rows[i];
          }
        }
        forall x | x in RowNumbers(rows[..n]) ensures x in RowNumbers(rows) {
          var i :| 0 <= i < n && rows[..n][i].number == x;
          assert rows[i].number == x;
        }
      }
    }
  }

  /** A number is in the critical list exactly when some critical row carries it. */
  lemma {:induction false} CriticalNumbersAreRowNumbers(rows: seq<QuestionRow>)
    ensures forall n :: n in CriticalNumbers(rows) <==>
      exists i :: 0 <= i < |rows| && rows[i].isCritical && rows[i].number == n
  {
    if rows != [] {
      var last := |rows| - 1;
      CriticalNumbersAreRowNumbers(rows[..last]);
      var tail := if rows[last].isCritical then [rows[last].number] else [];
      assert CriticalNumbers(rows) == CriticalNumbers(rows[..last]) + tail;
      forall n | n in CriticalNumbers(rows)
        ensures exists i :: 0 <= i < |rows| && rows[i].isCritical && rows[i].number == n
      {
        if n in CriticalNumbers(rows[..last]) {
          var i :| 0 <= i < last && rows[..last][i].isCritical && rows[..last][i].number == n;
          assert rows[i] == rows[..last][i];
        } else {
          assert n in tail;
        }
      }
      forall n | exists i :: 0 <= i < |rows| && rows[i].isCritical && rows[i].number == n
        ensures n in CriticalNumbers(rows)
      {
        var i :| 0 <= i < |rows| && rows[i].isCritical && rows[i].number == n;
        if i < last {
          assert rows[..last][i] == rows[i];
        } else {
          assert n in tail;
        }
      }
    }
  }

  /** The critical numbers of consecutive runs of rows follow each other: the list keeps row order. */
  lemma {:induction false} CriticalNumbersKeepRowOrder(front: seq<QuestionRow>, back: seq<QuestionRow>)
    ensures CriticalNumbers(front + back) == CriticalNumbers(front) + CriticalNumbers(back)
  {
    if back != [] {
      var n := |back| - 1;
      assert (front + back)[..|front| + n] == front + back[..n];
      CriticalNumbersKeepRowOrder(front, back[..n]);
    } else {
      assert front + back == front;
    }
  }

  /** A row whose number no later row repeats keeps its own answer in the map. */
  lemma {:induction false} AnswerMapLastWins(rows: seq<QuestionRow>, responses: seq<string>, i: nat)
    requires |responses| == |rows| && i < |rows|
    requires forall j :: i < j < |rows| ==> rows[j].number != rows[i].number
    ensures rows[i].number in AnswerMap(rows, responses)
    ensures AnswerMap(rows, responses)[rows[i].number] == responses[i]
  {
    var n := |rows| - 1;
    if i < n {
      AnswerMapLastWins(rows[..n], responses[..n], i);
    }
  }

  /** With distinct question numbers the answer map has exactly one entry per row. */
  lemma {:induction false} DistinctRowsOneKeyEach(rows: seq<QuestionRow>, responses: seq<string>)
    requires |responses| == |rows|
    requires forall i, j :: 0 <= i < j < |rows| ==> rows[i].number != rows[j].number
    ensures |AnswerMap(rows, responses)| == |rows|
  {
    if rows != [] {
      var n := |rows| - 1;
      DistinctRowsOneKeyEach(rows[..n], responses[..n]);
      AnswerMapKeys(rows[..n], responses[..n]);
      assert rows[n].number !in RowNumbers(rows[..n]);
    }
  }

  // ---------------------------------------------------------------------------
  // Scoring
  // ---------------------------------------------------------------------------

  /** Some critical question is answered exactly "No". */
  predicate FailedCritical(answers: map<int, string>, criticalNumbers: seq<int>)
    requires forall n :: n in criticalNumbers ==> n in answers
  {
    exists n :: n in criticalNumbers && answers[n] == "No"
  }

  /** The questions answered "Yes". */
  function YesKeys(answers: map<int, string>): set<int>
  {
    set q | q in answers && answers[q] == "Yes"
  }

  /** The questions whose answer is not "NA". */
  function ValidKeys(answers: map<int, string>): set<int>
  {
    set q | q in answers && answers[q] != "NA"
  }

  function YesCount(answers: map<int, string>): nat
  {
    |YesKeys(answers)|
  }

  function ValidCount(answers: map<int, string>): nat
  {
    |ValidKeys(answers)|
  }

  /** A subset is no larger than its superset. */
  lemma SubsetNoLarger(a: set<int>, b: set<int>)
    requires a <= b
    ensures |a| <= |b|
  {
    assert b == a + (b - a);
  }

  /** Every "Yes" answer is also a valid one, so there are never more "Yes" answers than valid ones. */
  lemma YesWithinValid(answers: map<int, string>)
    ensures YesCount(answers) <= ValidCount(answers)
  {
    SubsetNoLarger(YesKeys(answers), ValidKeys(answers));
  }

  /** yes out of valid as a percentage, 0 when nothing is valid. */
  function Percentage(yes: nat, valid: nat): (p: real)
    requires yes <= valid
    ensures 0.0 <= p <= 100.0
    ensures p == 100.0 <==> 0 < valid && yes == valid
    ensures p == 0.0 <==> yes == 0
  {
    if valid == 0 then 0.0 else (yes as real) * 100.0 / (valid as real)
  }

  /** The audit score: 0 on a failed critical question, else the share of "Yes" among the valid answers. */
  function Score(answers: map<int, string>, criticalNumbers: seq<int>): (score: real)
    requires forall n :: n in criticalNumbers ==> n in answers
    ensures 0.0 <= score <= 100.0
  {
    if FailedCritical(answers, criticalNumbers) then 0.0
    else
      YesWithinValid(answers);
      Percentage(YesCount(answers), ValidCount(answers))
  }

  /** A "No" on any critical question zeroes the score, whatever the other answers are. */
  lemma CriticalNoForcesZero(answers: map<int, string>, criticalNumbers: seq<int>, n: int)
    requires forall m :: m in criticalNumbers ==> m in answers
    requires n in criticalNumbers && answers[n] == "No"
    ensures Score(answers, criticalNumbers) == 0.0
  {
  }

  /**
   Critical questions answered anything but "No" (such as "Yes" or "NA") leave
   the score to the counts; so does an empty critical list.
   */
  lemma NoCriticalFailureScoresCounts(answers: map<int, string>, criticalNumbers: seq<int>)
    requires forall m :: m in criticalNumbers ==> m in answers
    requires forall m :: m in criticalNumbers ==> answers[m] != "No"
    ensures YesCount(answers) <= ValidCount(answers)
    ensures Score(answers, criticalNumbers) == Percentage(YesCount(answers), ValidCount(answers))
  {
    YesWithinValid(answers);
  }

  /**
   How one answer counts: "Yes" adds one to both counts, "NA" to neither,
   and anything else (such as "No") to the valid count only.
   */
  lemma CountsOnNewAnswer(answers: map<int, string>, q: int, a: string)
    requires q !in answers
    ensures YesCount(answers[q := a]) == YesCount(answers) + (if a == "Yes" then 1 else 0)
    ensures ValidCount(answers[q := a]) == ValidCount(answers) + (if a != "NA" then 1 else 0)
  {
    var updated := answers[q := a];
    if a == "Yes" {
      assert YesKeys(updated) == YesKeys(answers) + {q};
    } else {
      assert YesKeys(updated) == YesKeys(answers);
    }
    if a != "NA" {
      assert ValidKeys(updated) == ValidKeys(answers) + {q};
    } else {
      assert ValidKeys(updated) == ValidKeys(answers);
    }
  }

  /** Without a critical failure, answers that are all "NA" (or none at all) score 0. */
  lemma NothingValidScoresZero(answers: map<int, string>, criticalNumbers: seq<int>)
    requires forall m :: m in criticalNumbers ==> m in answers
    requires forall q :: q in answers ==> answers[q] == "NA"
    ensures Score(answers, criticalNumbers) == 0.0
  {
    forall q | q in ValidKeys(answers) ensures false {
    }
    assert ValidKeys(answers) == {};
  }

  /** At least one answer, every one "Yes": the score is 100. */
  lemma AllYesScoresFull(answers: map<int, string>, criticalNumbers: seq<int>)
    requires forall m :: m in criticalNumbers ==> m in answers
    requires |answers| > 0
    requires forall q :: q in answers ==> answers[q] == "Yes"
    ensures Score(answers, criticalNumbers) == 100.0
  {
    forall q | q in answers ensures q in YesKeys(answers) && q in ValidKeys(answers) {
    }
    assert YesKeys(answers) == answers.Keys == ValidKeys(answers);
    assert |answers.Keys| == |answers|;
  }

  /** On submission: collect the answers and critical numbers, then score them. */
  method ScoreSubmission(rows: seq<QuestionRow>, responses: seq<string>) returns (score: real)
    requires |responses| == |rows|
    ensures 0.0 <= score <= 100.0
    ensures forall n :: n in CriticalNumbers(rows) ==> n in AnswerMap(rows, responses)
    ensures score == Score(AnswerMap(rows, responses), CriticalNumbers(rows))
  {
    var answers, criticalNumbers := CollectAnswers(rows, responses);
    score := Score(answers, criticalNumbers);
  }

  /**
   End to end: a critical row answered "No", whose number no later row
   repeats, makes the collected audit score 0.
   */
  lemma CriticalRowNoScoresZero(rows: seq<QuestionRow>, responses: seq<string>, i: nat)
    requires |responses| == |rows| && i < |rows|
    requires forall j :: i < j < |rows| ==> rows[j].number != rows[i].number
    requires rows[i].isCritical && responses[i] == "No"
    ensures forall n :: n in CriticalNumbers(rows) ==> n in AnswerMap(rows, responses)
    ensures Score(AnswerMap(rows, responses), CriticalNumbers(rows)) == 0.0
  {
    var answers := AnswerMap(rows, responses);
    AnswerMapKeys(rows, responses);
    CriticalNumbersAreRowNumbers(rows);
    forall n | n in CriticalNumbers(rows) ensures n in answers {
      var j :| 0 <= j < |rows| && rows[j].isCritical && rows[j].number == n;
      assert n in RowNumbers(rows);
    }
    AnswerMapLastWins(rows, responses, i);
    CriticalNoForcesZero(answers, CriticalNumbers(rows), rows[i].number);
  }

  /**
   A later row with the same number overwrites a critical "No": question 2
   is critical and answered "No", but a second row for question 2 answered
   "Yes" leaves only "Yes" in the map, and the audit scores 100.
   */
  lemma LaterRowMasksCriticalNo()
    ensures var rows := [QuestionRow(2, "", true), QuestionRow(2, "", false)];
            var responses := ["No", "Yes"];
            CriticalNumbers(rows) == [2] &&
            AnswerMap(rows, responses) == map[2 := "Yes"] &&
            Score(AnswerMap(rows, responses), CriticalNumbers(rows)) == 100.0
  {
    var rows := [QuestionRow(2, "", true), QuestionRow(2, "", false)];
    var responses := ["No", "Yes"];
    assert rows[..1] == [QuestionRow(2, "", true)];
    assert rows[..1][..0] == [];
    assert responses[..1] == ["No"];
    assert AnswerMap(rows[..1], responses[..1]) == map[2 := "No"];
    assert CriticalNumbers(rows[..1]) == [2];
    assert CriticalNumbers(rows) == [2];
    var answers := AnswerMap(rows, responses);
    assert answers == map[2 := "No"][2 := "Yes"] == map[2 := "Yes"];
    AllYesScoresFull(answers, CriticalNumbers(rows));
  }
}
