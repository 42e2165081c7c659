/**
 The Digital Support audit scorecard: twelve Yes / No / N/A questions, each
 carrying a fixed weight, with two hard-coded critical rules on question 2
 (customer validation) and question 10 (branch referral).

 Weights are exact decimals with four places, so they are kept here as whole
 ten-thousandths: 833 stands for 0.0833 and `Unit` (10000) for 1.0.
 */
module WeightedScorecard {

  /** 1.0 in ten-thousandths. */
  const Unit: nat := 10000

  /** The weight of each question, keyed by its 1-based number. */
  const Weights: map<int, nat> :=
    map[1 := 833, 2 := 833, 3 := 833, 4 := 833, 5 := 833, 6 := 833,
        7 := 833, 8 := 833, 9 := 833, 10 := 837, 11 := 833, 12 := 833]

  /** The flat total (12.5%) awarded when validation is not applicable. */
  const ValidationNotApplicableTotal: nat := 1250

  /** The weight of position `i`, 0 for a position with no weight. */
  function WeightOf(i: int): nat
  {
    if i in Weights then Weights[i] else 0
  }

  /** An answer that earns its question's weight. */
  predicate Earns(answer: string)
  {
    answer == "Yes" || answer == "N/A"
  }

  /** The weight awarded for `answer` given at 1-based `position`. */
  function Award(position: int, answer: string): nat
  {
    if Earns(answer) then WeightOf(position) else 0
  }

  /** The awarded weights, one per answer, in answer order. */
  function AwardedWeights(answers: seq<string>): seq<nat>
  {
    seq(|answers|, i requires 0 <= i < |answers| => Award(i + 1, answers[i]))
  }

  /** The sum of a list of weights, adding the last one last. */
  function Sum(s: seq<nat>): nat
  {
    if s == [] then 0 else Sum(s[..|s| - 1]) + s[|s| - 1]
  }

  /** The sum of the weights of positions 1 to n. */
  function WeightTotal(n: nat): nat
  {
    if n == 0 then 0 else WeightTotal(n - 1) + WeightOf(n)
  }

  /** Builds the awarded list one answer at a time. */
  method CalcWeights(answers: seq<string>) returns (awarded: seq<nat>)
    ensures |awarded| == |answers|
    ensures forall i :: 0 <= i < |answers| ==>
      awarded[i] == (if answers[i] == "Yes" || answers[i] == "N/A" then WeightOf(i + 1) else 0)
    ensures forall i :: 0 <= i < |answers| && i >= 12 ==> awarded[i] == 0
    ensures awarded == AwardedWeights(answers)
  {
    awarded := [];
    var i := 0;
    while i < |answers|
      invariant 0 <= i <= |answers|
      invariant awarded == AwardedWeights(answers[..i])
    {
      var w := WeightOf(i + 1);
      if answers[i] == "Yes" || answers[i] == "N/A" {
        awarded := awarded + [w];
      } else {
        awarded := awarded + [0];
      }
      assert answers[..i + 1] == answers[..i] + [answers[i]];
      i := i + 1;
    }
    assert answers[..i] == answers;
  }

  /** The result of scoring an answer list. */
  datatype Total =
    | Scored(tenThousandths: nat)
      /** Fewer than ten answers: reading question 2 or 10 fails. */
    | IndexOutOfRange

  /** The total score, with the critical overrides applied before the weighted sum. */
  function TotalScore(answers: seq<string>): (r: Total)
    ensures r.Scored? <==> |answers| >= 10
    ensures r.Scored? ==> r.tenThousandths <= Unit
  {
    if |answers| < 10 then IndexOutOfRange
    else
      var q2, q10 := answers[1], answers[9];
      if q2 == "No" || q10 == "No" then Scored(0)
      else if q2 == "N/A" then Scored(ValidationNotApplicableTotal)
      else
        AwardedWithinUnit(answers);
        Scored(Sum(AwardedWeights(answers)))
  }

  /** Questions 1 to 12 have a weight; every other position has none. */
  lemma WeightedPositions(i: int)
    ensures i in Weights <==> 1 <= i <= 12
    ensures 1 <= i <= 12 ==> WeightOf(i) == if i == 10 then 837 else 833
  {
    assert Weights.Keys == {1, 2, 3, 4, 5, 6, 7, 8, 9, 10, 11, 12};
  }

  /** The weights of all twelve questions add up to exactly 1.0. */
  lemma WeightsSumToUnit()
    ensures WeightTotal(12) == Unit
    ensures forall n: nat :: n >= 12 ==> WeightTotal(n) == Unit
  {
    var k: nat := 0;
    while k < 12
      invariant k <= 12
      invariant WeightTotal(k) == 833 * k + (if k >= 10 then 4 else 0)
    {
      WeightedPositions(k + 1);
      k := k + 1;
    }
    forall n: nat | n >= 12 ensures WeightTotal(n) == Unit {
      WeightTotalBeyondTwelve(n);
    }
  }

  lemma {:induction false} WeightTotalBeyondTwelve(n: nat)
    requires n >= 12
    ensures WeightTotal(n) == WeightTotal(12)
  {
    if n > 12 {
      WeightedPositions(n);
      WeightTotalBeyondTwelve(n - 1);
    }
  }

  /** No prefix of the questions weighs more than all of them. */
  lemma {:induction false} WeightTotalAtMostUnit(n: nat)
    ensures WeightTotal(n) <= Unit
  {
    if n >= 12 {
      WeightsSumToUnit();
    } else {
      WeightTotalMonotone(n, 12);
      WeightsSumToUnit();
    }
  }

  lemma {:induction false} WeightTotalMonotone(m: nat, n: nat)
    requires m <= n
    ensures WeightTotal(m) <= WeightTotal(n)
  {
    if m < n {
      WeightTotalMonotone(m, n - 1);
    }
  }

  lemma AwardedPrefix(answers: seq<string>, k: nat)
    requires k <= |answers|
    ensures AwardedWeights(answers)[..k] == AwardedWeights(answers[..k])
  {
  }

  /** Each answer earns at most its position's weight, so the sum is at most the weights' sum. */
  lemma {:induction false} AwardedAtMostWeights(answers: seq<string>)
    ensures Sum(AwardedWeights(answers)) <= WeightTotal(|answers|)
    ensures (forall i :: 0 <= i < |answers| ==> Earns(answers[i])) ==>
      Sum(AwardedWeights(answers)) == WeightTotal(|answers|)
  {
    if answers != [] {
      var n := |answers|;
      AwardedPrefix(answers, n - 1);
      AwardedAtMostWeights(answers[..n - 1]);
    }
  }

  /** The weighted sum never exceeds 1.0, whatever the answers and however many. */
  lemma AwardedWithinUnit(answers: seq<string>)
    ensures Sum(AwardedWeights(answers)) <= Unit
  {
    AwardedAtMostWeights(answers);
    WeightTotalAtMostUnit(|answers|);
  }

  /** A "No" on validation (Q2) or branch referral (Q10) zeroes the total, whatever else was answered. */
  lemma CriticalNoZeroesTotal(answers: seq<string>)
    requires |answers| >= 10
    requires answers[1] == "No" || answers[9] == "No"
    ensures TotalScore(answers) == Scored(0)
  {
  }

  /** An N/A on validation gives exactly 12.5%, unless branch referral is "No", which wins. */
  lemma ValidationNotApplicableFlat(answers: seq<string>)
    requires |answers| >= 10 && answers[1] == "N/A"
    ensures TotalScore(answers) == if answers[9] == "No" then Scored(0) else Scored(1250)
  {
  }

  /** Without a critical override the total is the sum of the awarded weights. */
  lemma OtherwiseWeightedSum(answers: seq<string>)
    requires |answers| >= 10
    requires answers[1] != "No" && answers[1] != "N/A" && answers[9] != "No"
    ensures TotalScore(answers) == Scored(Sum(AwardedWeights(answers)))
  {
  }

  /** Twelve "Yes" answers score exactly 1.0. */
  lemma AllYesScoresUnit(answers: seq<string>)
    requires |answers| == 12
    requires forall i :: 0 <= i < 12 ==> answers[i] == "Yes"
    ensures TotalScore(answers) == Scored(Unit)
  {
    AwardedAtMostWeights(answers);
    WeightsSumToUnit();
  }
}
