/**
 * Clients of GenericCache that use only its contracts: a sliding
 * time-to-live run and a pause/resume run with the deadline shift.
 */
module Scenarios {
  import opened Cache

  /** Timeout 10; a read (at any time, for example second 9) pushes the deadline from 10 to 20. */
  method SlidingTtlRun()
  {
    var cache := new GenericCache<string, bool>(1, 10);
    cache.Put("a", true, 0);
    var r := cache.Get("a");
    assert r == Some(true);
    assert cache.entries["a"].outdatedAt == 20;
    cache.Clean(15);
    assert cache.ContainsKey("a");
    cache.Clean(20);
    assert cache.ContainsKey("a");
    cache.Clean(21);
    assert !cache.ContainsKey("a") && cache.Size() == 0;
  }

  /** Deadline 20, paused from 18 to 118: a sweep at 119 keeps the entry, one at 121 drops it. */
  method PauseRun()
  {
    var cache := new GenericCache<string, bool>(1, 10);
    cache.Put("a", true, 10);
    cache.BeforeCheckpoint(18);
    cache.AfterRestore(118);
    assert cache.entries["a"].outdatedAt == 120;
    cache.Clean(119);
    assert cache.ContainsKey("a");
    cache.Clean(121);
    assert !cache.ContainsKey("a");
  }
}
