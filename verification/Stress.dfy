/** The stress program's consumer: how it accounts for the sequence numbers it receives. */
module Stress {

  datatype Account = Account(consumed: nat, orderErrors: nat, gapRecords: nat, last: nat)

  /** One record through the counting in RunConsumer. */
  function Received(a: Account, number: nat): Account {
    var late := a.last != 0 && number <= a.last;
    var skipped := if a.last != 0 && number > a.last + 1 then number - a.last - 1 else 0;
    Account(a.consumed + 1, a.orderErrors + (if late then 1 else 0), a.gapRecords + skipped, number)
  }

  function ReceivedAll(a: Account, numbers: seq<nat>): Account {
    if numbers == [] then a else Received(ReceivedAll(a, numbers[..|numbers| - 1]), numbers[|numbers| - 1])
  }

  const NOTHING: Account := Account(0, 0, 0, 0)

  predicate Rising(numbers: seq<nat>) {
    forall i, j :: 0 <= i < j < |numbers| ==> numbers[i] < numbers[j]
  }

  predicate Positive(numbers: seq<nat>) {
    forall i :: 0 <= i < |numbers| ==> numbers[i] > 0
  }

  lemma {:induction false} Counts(numbers: seq<nat>)
    requires Positive(numbers)
    ensures var a := ReceivedAll(NOTHING, numbers);
            a.consumed == |numbers| && a.last == if numbers == [] then 0 else numbers[|numbers| - 1]
  {
    if numbers != [] {
      Counts(numbers[..|numbers| - 1]);
    }
  }

  /** No order error is counted exactly when the numbers only rise. */
  lemma {:induction false} OrderErrorsIff(numbers: seq<nat>)
    requires Positive(numbers)
    ensures ReceivedAll(NOTHING, numbers).orderErrors == 0 <==> Rising(numbers)
  {
    if numbers != [] {
      var n := |numbers| - 1;
      var before := numbers[..n];
      Counts(before);
      OrderErrorsIff(before);
      if Rising(before) && (n > 0 ==> before[n - 1] < numbers[n]) {
        forall i, j | 0 <= i < j < |numbers|
          ensures numbers[i] < numbers[j]
        {
          assert j == n && i < n - 1 ==> before[i] < before[n - 1];
          assert j < n ==> before[i] < before[j];
        }
      } else {
        assert !Rising(before) ==> !Rising(numbers);
      }
    }
  }

  /** Where a number does not rise over the one before it. */
  predicate FallsAt(numbers: seq<nat>, i: int) {
    1 <= i < |numbers| && numbers[i] <= numbers[i - 1]
  }

  function Falls(numbers: seq<nat>): set<int> {
    set i | 0 <= i < |numbers| && FallsAt(numbers, i)
  }

  lemma OneMoreFall(numbers: seq<nat>, n: nat)
    ensures |Falls(numbers + [n])| == |Falls(numbers)| + if numbers != [] && n <= numbers[|numbers| - 1] then 1 else 0
  {
    assert forall i :: 0 <= i < |numbers| ==> FallsAt(numbers + [n], i) == FallsAt(numbers, i);
    assert Falls(numbers + [n]) ==
           Falls(numbers) + if numbers != [] && n <= numbers[|numbers| - 1] then {|numbers|} else {};
  }

  /** One order error is counted at each such place. */
  lemma {:induction false} OrderErrorsAreFalls(numbers: seq<nat>)
    requires Positive(numbers)
    ensures ReceivedAll(NOTHING, numbers).orderErrors == |Falls(numbers)|
  {
    if numbers == [] {
      assert Falls(numbers) == {};
    } else {
      var before, n := numbers[..|numbers| - 1], numbers[|numbers| - 1];
      OrderErrorsAreFalls(before);
      Counts(before);
      OneMoreFall(before, n);
      assert numbers == before + [n];
    }
  }

  /** On rising numbers, what was received and what was skipped fill the range from the first number to the last. */
  lemma {:induction false} GapsFillTheRange(numbers: seq<nat>)
    requires Positive(numbers) && Rising(numbers) && numbers != []
    ensures var a := ReceivedAll(NOTHING, numbers);
            a.consumed + a.gapRecords == a.last - numbers[0] + 1
  {
    var n := |numbers| - 1;
    Counts(numbers[..n]);
    if n > 0 {
      GapsFillTheRange(numbers[..n]);
    } else {
      assert numbers[..0] == [];
    }
  }

  /** A clean report means the numbers came one after the other. */
  lemma CleanMeansContiguous(numbers: seq<nat>, i: nat)
    requires Positive(numbers) && i < |numbers|
    requires var a := ReceivedAll(NOTHING, numbers); a.orderErrors == 0 && a.gapRecords == 0
    ensures numbers[i] == numbers[0] + i
  {
    OrderErrorsIff(numbers);
    NoGapsBefore(numbers, i);
    GapsFillTheRange(numbers[..i + 1]);
    Counts(numbers[..i + 1]);
  }

  lemma {:induction false} NoGapsBefore(numbers: seq<nat>, i: nat)
    requires Positive(numbers) && i < |numbers|
    ensures ReceivedAll(NOTHING, numbers[..i + 1]).gapRecords <= ReceivedAll(NOTHING, numbers).gapRecords
    decreases |numbers|
  {
    var n := |numbers| - 1;
    if i < n {
      NoGapsBefore(numbers[..n], i);
      assert numbers[..n][..i + 1] == numbers[..i + 1];
    } else {
      assert numbers[..i + 1] == numbers;
    }
  }

  lemma ReceivedNext(before: seq<nat>, batch: seq<nat>, i: nat)
    requires i < |batch|
    ensures ReceivedAll(NOTHING, before + batch[..i + 1]) ==
            Received(ReceivedAll(NOTHING, before + batch[..i]), batch[i])
  {
    assert (before + batch[..i + 1])[..|before| + i] == before + batch[..i];
  }

  /** The counting loop over the batches of a run. */
  method RunConsumer(batches: seq<seq<nat>>) returns (a: Account)
    ensures a == ReceivedAll(NOTHING, Flat(batches))
  {
    var consumed, orderErrors, gapRecords, lastSeq := 0, 0, 0, 0;
    for b := 0 to |batches|
      invariant Account(consumed, orderErrors, gapRecords, lastSeq) == ReceivedAll(NOTHING, Flat(batches[..b]))
    {
      var batch := batches[b];
      ghost var before := Flat(batches[..b]);
      assert before + batch[..0] == before;
      for i := 0 to |batch|
        invariant Account(consumed, orderErrors, gapRecords, lastSeq) == ReceivedAll(NOTHING, before + batch[..i])
      {
        ReceivedNext(before, batch, i);
        var number := batch[i];
        if lastSeq != 0 {
          if number <= lastSeq {
            orderErrors := orderErrors + 1;
          } else if number != lastSeq + 1 {
            gapRecords := gapRecords + (number - lastSeq - 1);
          }
        }
        lastSeq := number;
        consumed := consumed + 1;
      }
      assert batch[..|batch|] == batch;
      assert batches[..b + 1][..b] == batches[..b];
    }
    assert batches[..|batches|] == batches;
    a := Account(consumed, orderErrors, gapRecords, lastSeq);
  }

  function Flat(batches: seq<seq<nat>>): seq<nat> {
    if batches == [] then [] else Flat(batches[..|batches| - 1]) + batches[|batches| - 1]
  }
}
