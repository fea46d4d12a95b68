/** The capped exponential backoff of `sfc7120_mcdi_exec` next to the one of sfxge it
    mirrors. Poll `k` happens after a total delay of `Total(k)` microseconds. */
module Backoff {
  const MIN_US: nat := 10
  const MAX_US: nat := 100000
  const TIMEOUT_US: nat := 10000000

  /** The delay after poll `k`. */
  function Interval(k: nat): (d: nat)
    ensures MIN_US <= d <= MAX_US
  {
    if k == 0 then MIN_US
    else if 2 * Interval(k - 1) > MAX_US then MAX_US
    else 2 * Interval(k - 1)
  }

  function Total(k: nat): nat {
    if k == 0 then 0 else Total(k - 1) + Interval(k - 1)
  }

  lemma {:induction false} TotalIncreases(j: nat, k: nat)
    requires j < k
    ensures Total(j) < Total(k)
    decreases k
  {
    if j < k - 1 {
      TotalIncreases(j, k - 1);
    }
  }

  /** Fourteen doublings, then the cap. */
  lemma FirstIntervals()
    ensures Interval(14) == MAX_US && Total(14) == 163830
  {
    assert Interval(3) == 80 && Total(3) == 70;
    assert Interval(6) == 640 && Total(6) == 630;
    assert Interval(9) == 5120 && Total(9) == 5110;
    assert Interval(12) == 40960 && Total(12) == 40950;
  }

  lemma {:induction false} TotalCapped(k: nat)
    requires k >= 14
    ensures Interval(k) == MAX_US && Total(k) == 163830 + (k - 14) * MAX_US
    decreases k
  {
    if k == 14 {
      FirstIntervals();
    } else {
      TotalCapped(k - 1);
    }
  }

  // ------------------------------------------------------------------ the two loops

  ghost predicate Before(timeout: nat, j: nat) {
    Total(j) < timeout
  }

  ghost predicate NotAfter(timeout: nat, j: nat) {
    Total(j) <= timeout
  }

  /** This driver stops polling at the first poll whose elapsed delay has reached the timeout. */
  ghost predicate GivesUpAt(timeout: nat, n: nat) {
    timeout <= Total(n) && forall j :: 0 <= j < n ==> Before(timeout, j)
  }

  /** sfxge stops at the first poll whose elapsed delay exceeds it. */
  ghost predicate RefGivesUpAt(timeout: nat, n: nat) {
    timeout < Total(n) && forall j :: 0 <= j < n ==> NotAfter(timeout, j)
  }

  /** How this driver's loop ends for a controller that would answer the polls `answered`: at
      the first answered poll not after the one at which it gives up. */
  ghost predicate Ends(answered: nat -> bool, timeout: nat, ok: bool, n: nat, totalUs: nat) {
    && totalUs == Total(n)
    && (forall j :: 0 <= j < n ==> !answered(j) && Before(timeout, j))
    && (if ok then answered(n) else !answered(n) && GivesUpAt(timeout, n))
  }

  ghost predicate RefEnds(answered: nat -> bool, timeout: nat, ok: bool, n: nat, totalUs: nat) {
    && totalUs == Total(n)
    && (forall j :: 0 <= j < n ==> !answered(j) && NotAfter(timeout, j))
    && (if ok then answered(n) else !answered(n) && RefGivesUpAt(timeout, n))
  }

  /** The poll loop of `sfc7120_mcdi_exec`. It ends with the first answered poll, or with
      the poll at which it gives up, less than one interval past the timeout. */
  method PollUntil(answered: nat -> bool, timeout: nat) returns (ok: bool, n: nat, totalUs: nat)
    ensures Ends(answered, timeout, ok, n, totalUs)
    ensures totalUs < timeout + MAX_US
  {
    var delayUs := MIN_US;
    totalUs, n := 0, 0;
    while !answered(n)
      invariant totalUs == Total(n) < timeout + MAX_US && delayUs == Interval(n)
      invariant forall j :: 0 <= j < n ==> !answered(j) && Before(timeout, j)
      decreases timeout + MAX_US - totalUs
    {
      if totalUs >= timeout {
        return false, n, totalUs;
      }
      totalUs := totalUs + delayUs;
      delayUs := delayUs * 2;
      if delayUs > MAX_US {
        delayUs := MAX_US;
      }
      n := n + 1;
    }
    ok := true;
  }

  /** `sfxge_mcdi_poll`. */
  method RefPollUntil(answered: nat -> bool, timeout: nat) returns (ok: bool, n: nat, totalUs: nat)
    ensures RefEnds(answered, timeout, ok, n, totalUs)
    ensures totalUs <= timeout + MAX_US
  {
    var delayUs := MIN_US;
    totalUs, n := 0, 0;
    while true
      invariant totalUs == Total(n) <= timeout + MAX_US && delayUs == Interval(n)
      invariant forall j :: 0 <= j < n ==> !answered(j) && NotAfter(timeout, j)
      decreases timeout + MAX_US - totalUs
    {
      if answered(n) {
        return true, n, totalUs;
      }
      if totalUs > timeout {
        return false, n, totalUs;
      }
      totalUs := totalUs + delayUs;
      delayUs := delayUs * 2;
      if delayUs > MAX_US {
        delayUs := MAX_US;
      }
      n := n + 1;
    }
  }

  // ------------------------------------------------------------------ equivalence

  ghost predicate Agree(timeout: nat) {
    forall n :: GivesUpAt(timeout, n) <==> RefGivesUpAt(timeout, n)
  }

  /** Despite `>=` here and `>` there the two loops give up at the same poll for a timeout
      exactly when no poll falls on it to the microsecond. */
  lemma AgreeIff(timeout: nat)
    ensures Agree(timeout) <==> forall k: nat :: Total(k) != timeout
  {
    if k: nat :| Total(k) == timeout {
      forall j | 0 <= j < k
        ensures Before(timeout, j)
      {
        TotalIncreases(j, k);
      }
      assert GivesUpAt(timeout, k);
      assert !RefGivesUpAt(timeout, k);
      assert !Agree(timeout);
      assert !forall k: nat :: Total(k) != timeout;
    } else {
      forall n
        ensures GivesUpAt(timeout, n) <==> RefGivesUpAt(timeout, n)
      {
        assert forall j: nat :: Before(timeout, j) <==> NotAfter(timeout, j);
      }
    }
  }

  /** The ten seconds of both drivers are not such a timeout: both give up at the 114th poll,
      after 113 delays and 10,063,830 us, far below 2^32. */
  lemma TenSeconds(n: nat)
    ensures Agree(TIMEOUT_US)
    ensures GivesUpAt(TIMEOUT_US, n) <==> n == 113
    ensures Total(113) == 10063830 < 0x1_0000_0000
  {
    TotalCapped(112);
    TotalCapped(113);
    forall k: nat
      ensures Total(k) != TIMEOUT_US && (k < 113 <==> Before(TIMEOUT_US, k))
    {
      if k < 112 { TotalIncreases(k, 112); } else if k > 113 { TotalIncreases(113, k); }
    }
    AgreeIff(TIMEOUT_US);
    assert !Before(TIMEOUT_US, 113);
  }

  /** Where the two loops give up alike they are the same loop: for every behaviour of the
      controller they end with the same verdict after the same polls and the same delay. */
  lemma SameResult(answered: nat -> bool, timeout: nat, ok: bool, n: nat, total: nat, ok': bool, n': nat, total': nat)
    requires Agree(timeout)
    requires Ends(answered, timeout, ok, n, total) && RefEnds(answered, timeout, ok', n', total')
    ensures ok == ok' && n == n' && total == total'
  {
    AgreeIff(timeout);
    assert GivesUpAt(timeout, n) <==> RefGivesUpAt(timeout, n);
    assert GivesUpAt(timeout, n') <==> RefGivesUpAt(timeout, n');
    assert n < n' ==> !answered(n) && NotAfter(timeout, n);
    assert n' < n ==> !answered(n') && Before(timeout, n');
  }

  /** In particular for the ten seconds of both. */
  lemma SameLoopAtTenSeconds(answered: nat -> bool, ok: bool, n: nat, total: nat, ok': bool, n': nat, total': nat)
    requires Ends(answered, TIMEOUT_US, ok, n, total) && RefEnds(answered, TIMEOUT_US, ok', n', total')
    ensures ok == ok' && n == n' <= 113 && total == total' <= 10063830
  {
    TenSeconds(113);
    SameResult(answered, TIMEOUT_US, ok, n, total, ok', n', total');
    assert GivesUpAt(TIMEOUT_US, 113);
    assert !Before(TIMEOUT_US, 113);
    if n < 113 { TotalIncreases(n, 113); }
  }

  /** No loop of ten seconds gets past poll 113, and one that gives up does so there. */
  lemma LastPoll(n: nat)
    requires forall j :: 0 <= j < n ==> Before(TIMEOUT_US, j)
    ensures n <= 113 && (GivesUpAt(TIMEOUT_US, n) ==> n == 113)
  {
    var last: nat := 113;
    TenSeconds(last);
    TenSeconds(n);
    assert !Before(TIMEOUT_US, last);
  }
}
