/** The retry budget across a kickback chain: a message that is kicked back,
    redelivered with the kickback's headers and kicked back again. */
module RetryBudget {
  import opened Envelope
  import opened Factory

  /** The headers after `n` kickbacks in a row, each applied to the headers
      the previous one produced; the first refusal ends the chain. */
  function KickbackChain(maxRetries: int64, h: map<string, Value>, n: nat): Result<map<string, Value>, Error>
  {
    if n == 0 then Success(h)
    else match KickbackChain(maxRetries, h, n - 1)
      case Failure(e) => Failure(e)
      case Success(h') => KickbackHeaders(maxRetries, h')
  }

  /** Starting from a count of 0 (absent or stored as 0), each of the first
      maxRetries + 1 kickbacks succeeds, the k-th one leaving the count at k
      and every other header as it was. */
  lemma {:induction false} ChainCounts(maxRetries: int64, h: map<string, Value>, k: nat)
    requires RetryCount(h) == Success(0)
    requires k <= maxRetries + 1 && k <= MaxInt64
    ensures KickbackChain(maxRetries, h, k).Success?
    ensures RetryCount(KickbackChain(maxRetries, h, k).value) == Success(k)
    ensures OtherHeaders(KickbackChain(maxRetries, h, k).value) == OtherHeaders(h)
  {
    if k > 0 {
      ChainCounts(maxRetries, h, k - 1);
      var prev := KickbackChain(maxRetries, h, k - 1).value;
      assert RetryCount(prev) == Success(k - 1);
      assert KickbackChain(maxRetries, h, k) == KickbackHeaders(maxRetries, prev);
    }
  }

  /** With a budget below the largest int64, the kickback that finds the
      count at maxRetries + 1 is refused: a message starting from a count of
      0 is kicked back exactly maxRetries + 1 times (none when maxRetries is
      -1). */
  lemma ChainExhausted(maxRetries: int64, h: map<string, Value>)
    requires RetryCount(h) == Success(0)
    requires -1 <= maxRetries < MaxInt64
    ensures KickbackChain(maxRetries, h, maxRetries + 1).Success?
    ensures KickbackChain(maxRetries, h, maxRetries + 2) == Failure(TooManyRetries)
  {
    ChainCounts(maxRetries, h, maxRetries + 1);
  }

  /** A negative budget refuses the first kickback of a fresh message. */
  lemma NegativeBudgetRefusesAtOnce(maxRetries: int64, h: map<string, Value>)
    requires RetryCount(h) == Success(0)
    requires maxRetries < 0
    ensures KickbackChain(maxRetries, h, 1) == Failure(TooManyRetries)
  {
  }

  /** The budget of the bound factory in the worked scenario: with
      maxRetries = 2 and no retry header, three kickbacks give the counts
      1, 2 and 3, and the fourth is refused. */
  lemma ScenarioMaxRetriesTwo(h: map<string, Value>)
    requires RetryCountHeader !in h
    ensures KickbackChain(2, h, 1) == Success(h[RetryCountHeader := Int64(1)])
    ensures KickbackChain(2, h, 2) == Success(h[RetryCountHeader := Int64(2)])
    ensures KickbackChain(2, h, 3) == Success(h[RetryCountHeader := Int64(3)])
    ensures KickbackChain(2, h, 4) == Failure(TooManyRetries)
  {
    var h1 := h[RetryCountHeader := Int64(1)];
    var h2 := h[RetryCountHeader := Int64(2)];
    var h3 := h[RetryCountHeader := Int64(3)];
    assert h[RetryCountHeader := Int64(0)][RetryCountHeader := Int64(1)] == h1;
    assert h1[RetryCountHeader := Int64(2)] == h2;
    assert h2[RetryCountHeader := Int64(3)] == h3;
  }

  /** The count never goes down along a chain while it stays below the
      largest int64. */
  lemma {:induction false} ChainMonotone(maxRetries: int64, h: map<string, Value>, n: nat)
    requires maxRetries < MaxInt64
    requires KickbackChain(maxRetries, h, n + 1).Success?
    ensures RetryCount(KickbackChain(maxRetries, h, n).value).Success?
    ensures RetryCount(KickbackChain(maxRetries, h, n + 1).value).value
         == RetryCount(KickbackChain(maxRetries, h, n).value).value + 1
  {
  }

  /** With the largest budget, the count check never refuses: at the largest
      int64 the increment wraps to the smallest, so the chain never ends. */
  lemma {:induction false} LargestBudgetNeverRefuses(h: map<string, Value>, n: nat)
    requires RetryCount(h).Success?
    ensures KickbackChain(MaxInt64, h, n).Success?
  {
    if n > 0 {
      LargestBudgetNeverRefuses(h, n - 1);
    }
  }

  /** The wrap-around step itself: a count at the largest int64 that passes
      the check comes back as the smallest int64. */
  lemma KickbackWrapsAtLargestCount(h: map<string, Value>)
    requires RetryCount(h) == Success(MaxInt64)
    ensures KickbackHeaders(MaxInt64, h).Success?
    ensures RetryCount(KickbackHeaders(MaxInt64, h).value) == Success(MinInt64)
  {
  }

  /** A forward restores the full budget, whatever the count was: after it,
      maxRetries + 1 kickbacks succeed and the next one is refused. */
  lemma ForwardRestoresBudget(maxRetries: int64, h: map<string, Value>)
    requires -1 <= maxRetries < MaxInt64
    ensures KickbackChain(maxRetries, ForwardedHeaders(h), maxRetries + 1).Success?
    ensures KickbackChain(maxRetries, ForwardedHeaders(h), maxRetries + 2) == Failure(TooManyRetries)
  {
    ChainExhausted(maxRetries, ForwardedHeaders(h));
  }

  /** A created envelope has the full budget: maxRetries + 1 kickbacks
      succeed and the next one is refused. */
  lemma CreatedHasFullBudget(maxRetries: int64)
    requires -1 <= maxRetries < MaxInt64
    ensures KickbackChain(maxRetries, CreatedHeaders(), maxRetries + 1).Success?
    ensures KickbackChain(maxRetries, CreatedHeaders(), maxRetries + 2) == Failure(TooManyRetries)
  {
    ChainExhausted(maxRetries, CreatedHeaders());
  }
}
