/**
 * The snooze rule of a check-in (`snoozeCheckIn`): a member may snooze a
 * check-in at most twice. The stored count is read, refused at the limit,
 * and otherwise written back one higher.
 */
module Snooze {
  import opened Wrappers

  const MaxSnoozes := 2

  /** What `snoozeCheckIn` returns. */
  datatype SnoozeOutcome = SnoozeOutcome(success: bool, canSnoozeAgain: bool)

  /** The outcome, and the count stored for this check-in and member afterwards. */
  datatype SnoozeStep = SnoozeStep(outcome: SnoozeOutcome, stored: Option<int>)

  const Refused := SnoozeOutcome(false, false)

  /**
   * `existing?.snooze_count || 0`: no record (or a null count) reads as 0,
   * and so does a stored 0.
   */
  function CurrentCount(stored: Option<int>): (count: int)
    ensures stored.None? ==> count == 0
    ensures stored.Some? ==> count == stored.value
  {
    if stored.Some? && stored.value != 0 then stored.value else 0
  }

  /**
   * One call of `snoozeCheckIn`. Without a signed-in user nothing is read or
   * written; at two or more snoozes the call is refused and nothing is
   * written; otherwise the count is stored one higher.
   */
  function SnoozeDecision(signedIn: bool, stored: Option<int>): SnoozeStep {
    if !signedIn then SnoozeStep(Refused, stored)
    else
      var count := CurrentCount(stored);
      if count >= MaxSnoozes then SnoozeStep(Refused, stored)
      else SnoozeStep(SnoozeOutcome(true, count + 1 < MaxSnoozes), Some(count + 1))
  }

  /** A refused snooze leaves the stored count as it was; a successful one raises it by one. */
  lemma SnoozeDecisionCases(signedIn: bool, stored: Option<int>)
    ensures !SnoozeDecision(signedIn, stored).outcome.success ==>
              SnoozeDecision(signedIn, stored).stored == stored &&
              !SnoozeDecision(signedIn, stored).outcome.canSnoozeAgain
    ensures SnoozeDecision(signedIn, stored).outcome.success <==>
              signedIn && CurrentCount(stored) < MaxSnoozes
    ensures SnoozeDecision(signedIn, stored).outcome.success ==>
              SnoozeDecision(signedIn, stored).stored == Some(CurrentCount(stored) + 1)
  {
  }

  /**
   * `canSnoozeAgain` is an exact forecast: after a successful snooze it is
   * true exactly when the next signed-in snooze succeeds.
   */
  lemma CanSnoozeAgainForecast(stored: Option<int>)
    requires SnoozeDecision(true, stored).outcome.success
    ensures SnoozeDecision(true, stored).outcome.canSnoozeAgain <==>
            SnoozeDecision(true, SnoozeDecision(true, stored).stored).outcome.success
  {
  }

  /** The successes among `n` signed-in snoozes in a row, starting from `stored`. */
  function Successes(stored: Option<int>, n: nat): nat
    decreases n
  {
    if n == 0 then 0
    else
      var step := SnoozeDecision(true, stored);
      (if step.outcome.success then 1 else 0) + Successes(step.stored, n - 1)
  }

  function Min(a: int, b: int): int { if a <= b then a else b }

  /**
   * From a count of `c` (at least 0), `n` snoozes in a row succeed
   * `min(n, 2 - c)` times, and never more than twice in all.
   */
  lemma {:induction false} SuccessesBound(stored: Option<int>, n: nat)
    requires CurrentCount(stored) >= 0
    ensures Successes(stored, n) ==
            Min(n, if CurrentCount(stored) >= MaxSnoozes then 0 else MaxSnoozes - CurrentCount(stored))
    ensures Successes(stored, n) <= MaxSnoozes
    decreases n
  {
    if n > 0 {
      var step := SnoozeDecision(true, stored);
      SuccessesBound(step.stored, n - 1);
    }
  }

  /** A member with no snooze record gets exactly two snoozes, however often they ask. */
  lemma TwoSnoozesFromScratch(n: nat)
    requires n >= MaxSnoozes
    ensures Successes(None, n) == MaxSnoozes
  {
    SuccessesBound(None, n);
  }
}
