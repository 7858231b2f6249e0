/**
 * The workload that uses the cache: a trial-division primality check whose
 * verdicts are memoised in a GenericCache keyed by the number.
 */
module Primes {
  import opened Cache

  /** The trial-division verdict: no n with 1 < n < number divides number. */
  ghost predicate NoProperDivisor(number: int)
  {
    forall n :: 1 < n < number ==> number % n != 0
  }

  /** Primality in the usual sense, as an independent reference. */
  ghost predicate IsPrimeNumber(p: int)
  {
    p > 1 && forall d :: 1 <= d <= p && p % d == 0 ==> d == 1 || d == p
  }

  /** Above 1, the trial-division verdict is primality. */
  lemma NoProperDivisorIsPrimality(number: int)
    requires number > 1
    ensures NoProperDivisor(number) <==> IsPrimeNumber(number)
  {
  }

  /**
   * Below 2 the loop finds no divisor to test, so 0 and 1 (and any negative
   * number) come out as prime although they are not.
   */
  lemma SmallNumbersReportedPrime(number: int)
    requires number <= 1
    ensures NoProperDivisor(number) && !IsPrimeNumber(number)
  {
  }

  /**
   * The trial-division loop: counts `n` down from `number` to 1 and stops at
   * the first `n`, other than `number` and 1, that divides `number`.
   */
  method TrialDivision(number: int) returns (isPrime: bool)
    ensures isPrime <==> NoProperDivisor(number)
  {
    isPrime := true;
    var n := number;
    while n > 0
      invariant n <= number
      invariant forall d :: n < d < number && d > 1 ==> number % d != 0
      decreases n
    {
      if n != number && n != 1 && number % n == 0 {
        isPrime := false;
        break;
      }
      n := n - 1;
    }
  }

  /** Every verdict held in the cache is the trial-division verdict for its key. */
  ghost predicate MemoSound(m: map<int, CacheValue<bool>>)
  {
    forall k :: k in m ==> m[k].value == NoProperDivisor(k)
  }

  /**
   * Neither a read of a cached verdict nor the store of a freshly computed
   * one breaks MemoSound.
   */
  lemma MemoSoundPreserved(m: map<int, CacheValue<bool>>, number: int, cacheTimeout: int, deadline: int)
    requires MemoSound(m)
    ensures MemoSound(Renew(m, number, cacheTimeout))
    ensures MemoSound(m[number := CacheValue(NoProperDivisor(number), deadline)])
  {
  }

  /**
   * The cache starts with no verdicts, and the sweep, `remove` and `clear`
   * only drop verdicts, so none of them breaks MemoSound.
   */
  lemma MemoSoundUnderEviction(m: map<int, CacheValue<bool>>, now: int, key: int)
    ensures MemoSound(map[])
    ensures MemoSound(m) ==> MemoSound(Sweep(m, now)) && MemoSound(m - {key})
  {
  }

  /**
   * isPrime: answers from the cache when the number is there (renewing the
   * entry), otherwise runs trial division and stores the verdict.
   */
  method IsPrime(primeCache: GenericCache<int, bool>, number: int, now: int) returns (isPrime: bool)
    modifies primeCache`entries
    ensures primeCache.ContainsKey(number)
    ensures number in old(primeCache.entries) ==>
              isPrime == old(primeCache.entries)[number].value
              && primeCache.entries == Renew(old(primeCache.entries), number, primeCache.cacheTimeout)
    ensures number !in old(primeCache.entries) ==>
              (isPrime <==> NoProperDivisor(number))
              && primeCache.entries == old(primeCache.entries)[number := CacheValue(isPrime, now + primeCache.cacheTimeout)]
    ensures MemoSound(old(primeCache.entries)) ==>
              (isPrime <==> NoProperDivisor(number)) && MemoSound(primeCache.entries)
  {
    if primeCache.ContainsKey(number) {
      var cached := primeCache.Get(number);
      return cached.value;
    }
    isPrime := TrialDivision(number);
    primeCache.Put(number, isPrime, now);
    if MemoSound(old(primeCache.entries)) {
      MemoSoundPreserved(old(primeCache.entries), number, primeCache.cacheTimeout, now + primeCache.cacheTimeout);
    }
  }
}
