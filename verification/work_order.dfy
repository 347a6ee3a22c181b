/**
 * Work orders and their activities, with the validation `WorkOrder::new`
 * performs: a ten-digit number, activities in ascending order, no activity
 * listed twice.
 */
module WorkOrders {
  import opened Results
  import opened Sequences
  import opened Environment
  import T = Technicians

  type WorkOrderNumber = nat
  type ActivityNumber = nat
  type NumberOfPeople = nat

  /** An activity of a work order: its number, how many people it takes and the skill it needs. */
  datatype Activity = Activity(activityNumber: ActivityNumber, numberOfPeople: NumberOfPeople, resource: T.Skill)

  /** The derived order of activities: lexicographic on (activity number, number of people, skill). */
  predicate ActivityLess(a: Activity, b: Activity)
    ensures ActivityLess(a, b) ==> a != b
  {
    || a.activityNumber < b.activityNumber
    || (a.activityNumber == b.activityNumber && a.numberOfPeople < b.numberOfPeople)
    || (a.activityNumber == b.activityNumber && a.numberOfPeople == b.numberOfPeople
        && T.SkillRank(a.resource) < T.SkillRank(b.resource))
  }

  predicate ActivityLessEq(a: Activity, b: Activity)
  {
    a == b || ActivityLess(a, b)
  }

  /** The derived order is a strict total order: asymmetric, transitive, and any two distinct activities are comparable. */
  lemma ActivityOrderTotal(a: Activity, b: Activity, c: Activity)
    ensures ActivityLess(a, b) ==> !ActivityLess(b, a)
    ensures ActivityLess(a, b) && ActivityLess(b, c) ==> ActivityLess(a, c)
    ensures a != b ==> ActivityLess(a, b) || ActivityLess(b, a)
  {
  }

  /** How one activity follows the previous one. */
  datatype ActivityRelation = StartStart | FinishStart

  datatype WorkOrder = WorkOrder(workOrderNumber: WorkOrderNumber, basicStartDate: Date, activities: seq<Activity>)

  datatype WorkOrderError =
    | InvalidWorkOrderNumber(text: string)
    | NonSortedActivities(unsorted: seq<Activity>)
    | DuplicatedActivities

  function DigitChar(d: nat): char
    requires d < 10
  {
    "0123456789"[d]
  }

  /** Every character is a decimal digit. */
  predicate IsDigits(s: string)
  {
    forall i :: 0 <= i < |s| ==> '0' <= s[i] <= '9'
  }

  /** The number a string of decimal digits denotes, most significant digit first. */
  function DigitsValue(s: string): nat
    requires IsDigits(s)
  {
    if s == [] then 0 else 10 * DigitsValue(s[..|s| - 1]) + (s[|s| - 1] as int - '0' as int)
  }

  /** The decimal representation of `n` (`u64::to_string`): digits only, no leading zero, denoting `n`. */
  function DecimalString(n: nat): (s: string)
    ensures |s| >= 1 && IsDigits(s)
    ensures s[0] == '0' ==> n == 0
    ensures DigitsValue(s) == n
    decreases n
  {
    if n < 10 then
      assert DigitChar(n) as int - '0' as int == n;
      [DigitChar(n)]
    else
      var prefix := DecimalString(n / 10);
      var s := prefix + [DigitChar(n % 10)];
      assert s[..|s| - 1] == prefix;
      assert DigitChar(n % 10) as int - '0' as int == n % 10;
      s
  }

  function Pow10(k: nat): (p: nat)
    ensures p >= 1
  {
    if k == 0 then 1 else 10 * Pow10(k - 1)
  }

  lemma {:induction false} Pow10Monotone(a: nat, b: nat)
    requires a <= b
    ensures Pow10(a) <= Pow10(b)
    decreases b - a
  {
    if a < b {
      Pow10Monotone(a, b - 1);
    }
  }

  /** A positive number with `L` decimal digits lies in `[10^(L-1), 10^L)`. */
  lemma {:induction false} DecimalLengthBounds(n: nat)
    ensures n < Pow10(|DecimalString(n)|)
    ensures n >= 1 ==> Pow10(|DecimalString(n)| - 1) <= n
    decreases n
  {
    if n >= 10 {
      DecimalLengthBounds(n / 10);
      var len := |DecimalString(n / 10)|;
      assert |DecimalString(n)| == len + 1;
      assert Pow10(len + 1) == 10 * Pow10(len);
      assert Pow10(len) == 10 * Pow10(len - 1);
    }
  }

  /** The decimal representation has ten characters exactly for the numbers 10^9 through 10^10 - 1. */
  lemma TenDigits(n: nat)
    ensures |DecimalString(n)| == 10 <==> 1_000_000_000 <= n <= 9_999_999_999
  {
    DecimalLengthBounds(n);
    var len := |DecimalString(n)|;
    assert Pow10(9) == 1_000_000_000 by {
      assert Pow10(1) == 10;
      assert Pow10(2) == 100;
      assert Pow10(3) == 1_000;
      assert Pow10(4) == 10_000;
      assert Pow10(5) == 100_000;
      assert Pow10(6) == 1_000_000;
      assert Pow10(7) == 10_000_000;
      assert Pow10(8) == 100_000_000;
    }
    assert Pow10(10) == 10_000_000_000;
    if len <= 9 {
      Pow10Monotone(len, 9);
    }
    if len >= 11 {
      Pow10Monotone(10, len - 1);
    }
  }

  /** Every adjacent pair is in order. */
  predicate AdjacentInOrder(activities: seq<Activity>)
  {
    forall i :: 0 < i < |activities| ==> ActivityLessEq(activities[i - 1], activities[i])
  }

  /** `slice::is_sorted` checks adjacent pairs, which puts every earlier activity at or below every later one. */
  predicate IsSorted(activities: seq<Activity>)
    ensures IsSorted(activities) <==> forall i, j :: 0 <= i <= j < |activities| ==> ActivityLessEq(activities[i], activities[j])
  {
    if AdjacentInOrder(activities) then
      assert forall i, j :: 0 <= i <= j < |activities| ==> ActivityLessEq(activities[i], activities[j]) by {
        forall i, j | 0 <= i <= j < |activities|
          ensures ActivityLessEq(activities[i], activities[j])
        {
          SortedChain(activities, i, j);
        }
      }
      true
    else
      assert exists i :: 0 < i < |activities| && !ActivityLessEq(activities[i - 1], activities[i]);
      false
  }

  /** Some adjacent pair is the same activity. */
  predicate AdjacentDuplicate(activities: seq<Activity>)
  {
    exists i :: 0 < i < |activities| && activities[i - 1] == activities[i]
  }

  /** Every earlier activity is strictly below every later one. */
  predicate StrictlyAscending(activities: seq<Activity>)
  {
    forall i, j :: 0 <= i < j < |activities| ==> ActivityLess(activities[i], activities[j])
  }

  lemma {:induction false} SortedChain(activities: seq<Activity>, i: nat, j: nat)
    requires AdjacentInOrder(activities)
    requires i <= j < |activities|
    ensures ActivityLessEq(activities[i], activities[j])
    decreases j - i
  {
    if i < j {
      SortedChain(activities, i, j - 1);
    }
  }

  /** For sorted activities, a repeated activity is a repeated neighbour, and no repeat means strictly ascending. */
  lemma SortedDuplicates(activities: seq<Activity>)
    requires IsSorted(activities)
    ensures |ToSet(activities)| != |activities| <==> AdjacentDuplicate(activities)
    ensures StrictlyAscending(activities) <==> !AdjacentDuplicate(activities)
  {
    DistinctCountIff(activities);
    if !NoRepeats(activities) {
      var i, j :| 0 <= i < j < |activities| && activities[i] == activities[j];
      SortedChain(activities, i + 1, j);
      assert activities[i] == activities[i + 1];
    }
    if !AdjacentDuplicate(activities) {
      forall i, j | 0 <= i < j < |activities|
        ensures ActivityLess(activities[i], activities[j])
      {
        SortedChain(activities, i, j);
      }
    }
  }

  /** `WorkOrder::new`: the checks run in the order number, sortedness, duplicates. */
  function New(workOrderNumber: WorkOrderNumber, basicStartDate: Date, activities: seq<Activity>): (r: Result<WorkOrder, WorkOrderError>)
    ensures r == Err(InvalidWorkOrderNumber(DecimalString(workOrderNumber)))
            <==> !(1_000_000_000 <= workOrderNumber <= 9_999_999_999)
    ensures r == Err(NonSortedActivities(activities))
            <==> 1_000_000_000 <= workOrderNumber <= 9_999_999_999
                 && exists i :: 0 < i < |activities| && !ActivityLessEq(activities[i - 1], activities[i])
    ensures r == Err(DuplicatedActivities)
            <==> 1_000_000_000 <= workOrderNumber <= 9_999_999_999
                 && IsSorted(activities) && AdjacentDuplicate(activities)
    ensures r.Ok? <==> 1_000_000_000 <= workOrderNumber <= 9_999_999_999 && StrictlyAscending(activities)
    ensures r.Ok? ==> r.value.workOrderNumber == workOrderNumber && r.value.basicStartDate == basicStartDate
                      && r.value.activities == activities
  {
    TenDigits(workOrderNumber);
    if |DecimalString(workOrderNumber)| != 10 then
      Err(InvalidWorkOrderNumber(DecimalString(workOrderNumber)))
    else if !IsSorted(activities) then
      Err(NonSortedActivities(activities))
    else
      SortedDuplicates(activities);
      if |ToSet(activities)| != |activities| then
        Err(DuplicatedActivities)
      else
        Ok(WorkOrder(workOrderNumber, basicStartDate, activities))
  }

  lemma EmptyActivitiesAccepted(workOrderNumber: WorkOrderNumber, basicStartDate: Date)
    requires 1_000_000_000 <= workOrderNumber <= 9_999_999_999
    ensures New(workOrderNumber, basicStartDate, []) == Ok(WorkOrder(workOrderNumber, basicStartDate, []))
  {
  }

  /** `WorkOrder::activities_relations`: one relation per activity, every one finish-to-start. */
  function ActivitiesRelations(w: WorkOrder): (r: seq<ActivityRelation>)
    ensures |r| == |w.activities|
    ensures forall i :: 0 <= i < |r| ==> r[i] == FinishStart
  {
    seq(|w.activities|, _ => FinishStart)
  }
}
