/** The fuzzing statistics: 64-bit counters updated in place, tied to the history of results. */
module FuzzStats {
  import opened CTypes

  // Values of the result enumeration; C lets any other integer through as well.
  const CFS_FUZZ_SUCCESS := 0
  const CFS_FUZZ_ERROR := 1
  const CFS_FUZZ_CRASH := 2
  const CFS_FUZZ_TIMEOUT := 3

  // The results that have a counter of their own.
  const COUNTED_RESULTS: set<int> := {CFS_FUZZ_SUCCESS, CFS_FUZZ_ERROR, CFS_FUZZ_CRASH, CFS_FUZZ_TIMEOUT}

  ghost function Count(history: seq<int>, result: int): (n: nat)
    ensures n <= |history|
  {
    if history == [] then 0
    else Count(history[..|history| - 1], result) + (if history[|history| - 1] == result then 1 else 0)
  }

  // Results that no counter but the total records.
  ghost function CountUncounted(history: seq<int>): (n: nat)
    ensures n <= |history|
  {
    if history == [] then 0
    else CountUncounted(history[..|history| - 1]) + (if history[|history| - 1] in COUNTED_RESULTS then 0 else 1)
  }

  lemma CountAppend(history: seq<int>, result: int, counted: int)
    ensures Count(history + [result], counted) == Count(history, counted) + (if result == counted then 1 else 0)
  {
    assert (history + [result])[..|history|] == history;
  }

  // A 64-bit counter that has been incremented n times from zero.
  ghost predicate Counted(counter: uint64, n: nat) {
    counter == n % TWO_64
  }

  lemma Increment(counter: uint64, n: nat)
    requires Counted(counter, n)
    ensures Counted((counter + 1) % TWO_64, n + 1)
  {
  }

  lemma {:induction false} CountsAddUp(history: seq<int>)
    ensures |history| == Count(history, CFS_FUZZ_SUCCESS) + Count(history, CFS_FUZZ_ERROR) + Count(history, CFS_FUZZ_CRASH)
                         + Count(history, CFS_FUZZ_TIMEOUT) + CountUncounted(history)
  {
    if history == [] {
    } else {
      CountsAddUp(history[..|history| - 1]);
    }
  }

  class Stats {
    var totalExecutions: uint64
    var successfulExecutions: uint64
    var errorExecutions: uint64
    var crashExecutions: uint64
    var timeoutExecutions: uint64
    var startTime: int
    ghost var history: seq<int>  // every result since initialisation

    // Each counter is the number of matching results, modulo 2^64.
    ghost predicate Valid()
      reads this
    {
      && Counted(totalExecutions, |history|)
      && Counted(successfulExecutions, Count(history, CFS_FUZZ_SUCCESS))
      && Counted(errorExecutions, Count(history, CFS_FUZZ_ERROR))
      && Counted(crashExecutions, Count(history, CFS_FUZZ_CRASH))
      && Counted(timeoutExecutions, Count(history, CFS_FUZZ_TIMEOUT))
    }

    // CFS_InitFuzzStats; the clock is a parameter.
    method Init(now: int)
      modifies this
      ensures Valid() && history == [] && startTime == now
    {
      totalExecutions, successfulExecutions, errorExecutions, crashExecutions, timeoutExecutions := 0, 0, 0, 0, 0;
      startTime := now;
      history := [];
    }

    // CFS_UpdateFuzzStats
    method Update(result: int)
      requires Valid()
      modifies this
      ensures Valid() && history == old(history) + [result] && startTime == old(startTime)
    {
      hide Count, Counted;
      CountAppend(history, result, CFS_FUZZ_SUCCESS);
      CountAppend(history, result, CFS_FUZZ_ERROR);
      CountAppend(history, result, CFS_FUZZ_CRASH);
      CountAppend(history, result, CFS_FUZZ_TIMEOUT);
      Increment(totalExecutions, |history|);
      Increment(successfulExecutions, Count(history, CFS_FUZZ_SUCCESS));
      Increment(errorExecutions, Count(history, CFS_FUZZ_ERROR));
      Increment(crashExecutions, Count(history, CFS_FUZZ_CRASH));
      Increment(timeoutExecutions, Count(history, CFS_FUZZ_TIMEOUT));
      history := history + [result];
      totalExecutions := (totalExecutions + 1) % TWO_64;
      if result == CFS_FUZZ_SUCCESS {
        successfulExecutions := (successfulExecutions + 1) % TWO_64;
      } else if result == CFS_FUZZ_ERROR {
        errorExecutions := (errorExecutions + 1) % TWO_64;
      } else if result == CFS_FUZZ_CRASH {
        crashExecutions := (crashExecutions + 1) % TWO_64;
      } else if result == CFS_FUZZ_TIMEOUT {
        timeoutExecutions := (timeoutExecutions + 1) % TWO_64;
      }
    }
  }

  // Over any run of fewer than 2^64 updates the counters are exact, and what the total has beyond
  // the four counters is the number of results none of them records.
  lemma RunExact(stats: Stats)
    requires stats.Valid() && |stats.history| < TWO_64
    ensures stats.totalExecutions == |stats.history|
    ensures stats.successfulExecutions == Count(stats.history, 0) && stats.errorExecutions == Count(stats.history, 1)
    ensures stats.crashExecutions == Count(stats.history, 2) && stats.timeoutExecutions == Count(stats.history, 3)
    ensures stats.totalExecutions - stats.successfulExecutions - stats.errorExecutions - stats.crashExecutions
            - stats.timeoutExecutions == CountUncounted(stats.history)
  {
    hide Count, CountUncounted;
    CountsAddUp(stats.history);
  }
}
