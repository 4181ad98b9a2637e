/**
 * The in-memory verification cache service: a class over a map from IP
 * address to record, whose methods update the map in place. Each method is
 * proved to leave the map as the matching function of CacheRecords says.
 */
module CacheService {
  import opened Wrappers
  import opened AttemptWindow
  import opened CacheRecords

  /** What `getCacheStats` reports. */
  datatype CacheStats = CacheStats(totalRecords: nat, blockedCount: nat, totalAttempts: nat)

  class VerificationCacheService {
    const config: CacheConfig
    var cache: Cache

    /** The configuration is positive and every record sets or clears `blocked` and `blockUntil` together. */
    ghost predicate Valid()
      reads this
    {
      config.Valid() && AllWellFormed(cache)
    }

    /** A service with the given configuration and an empty cache (the cleanup timer is not modelled). */
    constructor (config: CacheConfig)
      requires config.Valid()
      ensures Valid() && this.config == config && cache == map[]
    {
      this.config := config;
      cache := map[];
    }

    /** `getOrCreateRecord`: the record of `ip`, inserted fresh when absent. */
    method GetOrCreateRecord(ip: string) returns (record: UserRecord)
      requires Valid()
      modifies this
      ensures Valid()
      ensures cache == old(cache)[ip := RecordOf(old(cache), ip)]
      ensures record == cache[ip]
    {
      if ip !in cache {
        cache := cache[ip := NewRecord];
      }
      record := cache[ip];
    }

    /** `cleanOldAttempts` on the record stored under `ip`: drop attempts past the retention horizon, then delete the record if it is empty and unblocked. */
    method CleanOldAttempts(ip: string, now: int)
      requires Valid() && ip in cache
      modifies this
      ensures Valid()
      ensures cache == StoreTrimmed(old(cache), ip, old(cache)[ip], now, config)
    {
      var cutoffTime := now - config.timeWindowMinutes * 2 * 60 * 1000;
      var record := cache[ip];
      record := record.(attempts := KeepSince(record.attempts, cutoffTime));
      cache := cache[ip := record];
      if |record.attempts| == 0 && !record.blocked {
        cache := cache - {ip};
      }
    }

    /** `recordAttempt`: append one attempt stamped `now`, re-evaluate the block, trim. */
    method RecordAttempt(ip: string, success: bool, token: Option<string>, page: Option<string>, now: int)
      requires Valid()
      modifies this
      ensures Valid()
      ensures cache == AfterRecordAttempt(old(cache), ip, success, token, page, now, config)
    {
      ghost var before := cache;
      var record := GetOrCreateRecord(ip);
      record := record.(attempts := record.attempts + [Attempt(now, success, token, page)]);
      record := record.(lastAttempt := Some(now));
      record := CacheRecords.UpdateBlockStatus(record, now, config);
      AutoBlockRule(AppendAttempt(RecordOf(before, ip), now, success, token, page), now, config);
      AllWellFormedStore(cache, ip, record);
      cache := cache[ip := record];
      assert cache == before[ip := record];
      CleanOldAttempts(ip, now);
      StoreTrimmedOverwrite(before, ip, record, now, config);
    }

    /** `isBlocked`: false for an unknown address; a block that has run out is cleared and reported as false. */
    method IsBlocked(ip: string, now: int) returns (blocked: bool)
      requires Valid()
      modifies this
      ensures Valid()
      ensures blocked == (ip in old(cache) && IsBlockedAt(old(cache)[ip], now))
      ensures cache == ExpireKey(old(cache), ip, now)
    {
      if ip !in cache {
        return false;
      }
      var record := cache[ip];
      if record.blocked && record.blockUntil.Some? {
        if now > record.blockUntil.value {
          cache := cache[ip := record.(blocked := false, blockUntil := None)];
          return false;
        }
        return true;
      }
      return record.blocked;
    }

    /** `getRemainingAttempts`: the quota left in the current window. */
    method GetRemainingAttempts(ip: string, now: int) returns (remaining: int)
      requires Valid()
      ensures remaining == RemainingAttempts(cache, ip, now, config)
      ensures 0 <= remaining <= config.maxAttemptsPerWindow
    {
      if ip !in cache {
        return config.maxAttemptsPerWindow;
      }
      var recentAttempts := RecentAttempts(cache[ip], now, config);
      var left := config.maxAttemptsPerWindow - |recentAttempts|;
      remaining := if left > 0 then left else 0;
    }

    /** `getFailedAttemptsCount`: the failures in the current window. */
    method GetFailedAttemptsCount(ip: string, now: int) returns (failed: nat)
      ensures failed == FailedAttemptsCount(cache, ip, now, config)
      ensures ip !in cache ==> failed == 0
      ensures ip in cache ==> failed <= |RecentAttempts(cache[ip], now, config)|
    {
      if ip !in cache {
        return 0;
      }
      var recentAttempts := RecentAttempts(cache[ip], now, config);
      failed := FailedCount(recentAttempts);
    }

    /** `getRecordStats`: counts over the record, then `isBlocked`, whose lazy expiry the reported `blockUntil` reflects. */
    method GetRecordStats(ip: string, now: int) returns (stats: RecordStats)
      requires Valid()
      modifies this
      ensures Valid()
      ensures stats == StatsOf(old(cache), ip, now, config)
      ensures cache == ExpireKey(old(cache), ip, now)
      ensures stats.failedAttempts + stats.successAttempts == stats.recentAttempts <= stats.totalAttempts
    {
      RecordStatsShape(cache, ip, now, config);
      if ip !in cache {
        return RecordStats(0, 0, 0, 0, false, None, None);
      }
      var record := cache[ip];
      var recentAttempts := RecentAttempts(record, now, config);
      var failedAttempts := FailedCount(recentAttempts);
      var successAttempts := SucceededCount(recentAttempts);
      var isBlocked := IsBlocked(ip, now);
      var after := cache[ip];
      stats := RecordStats(|record.attempts|, |recentAttempts|, failedAttempts, successAttempts,
                           isBlocked, after.blockUntil, after.lastAttempt);
    }

    /** `blockIp`: block `ip` (creating its record) for the given minutes, or the configured ones when omitted or zero. */
    method BlockIp(ip: string, durationMinutes: Option<int>, now: int)
      requires Valid()
      modifies this
      ensures Valid()
      ensures cache == AfterBlockIp(old(cache), ip, durationMinutes, now, config)
    {
      var record := GetOrCreateRecord(ip);
      var minutes := if durationMinutes.Some? && durationMinutes.value != 0 then durationMinutes.value
                     else config.blockDurationMinutes;
      record := record.(blocked := true, blockUntil := Some(now + minutes * 60 * 1000));
      cache := cache[ip := record];
    }

    /** `unblockIp`: clear the block of a known address; nothing for an unknown one. */
    method UnblockIp(ip: string)
      requires Valid()
      modifies this
      ensures Valid()
      ensures cache == AfterUnblockIp(old(cache), ip)
    {
      if ip in cache {
        var record := cache[ip];
        record := record.(blocked := false, blockUntil := None);
        cache := cache[ip := record];
      }
    }

    /** `clearRecord`: forget `ip` entirely. */
    method ClearRecord(ip: string)
      requires Valid()
      modifies this
      ensures Valid()
      ensures cache == old(cache) - {ip}
    {
      cache := cache - {ip};
    }

    /** `getBlockedIps`: ask `isBlocked` of every key and collect the ones it confirms. */
    method GetBlockedIps(now: int) returns (blocked: seq<string>)
      requires Valid()
      modifies this
      ensures Valid()
      ensures cache == ExpireAll(old(cache), now)
      ensures forall ip :: ip in blocked <==> ip in BlockedKeys(old(cache), now)
      ensures forall i, j :: 0 <= i < j < |blocked| ==> blocked[i] != blocked[j]
    {
      blocked := [];
      var pending := cache.Keys;
      ExpireOutsideEnds(cache, now);
      while pending != {}
        invariant Valid()
        invariant pending <= old(cache).Keys
        invariant cache == ExpireOutside(old(cache), pending, now)
        invariant forall ip :: ip in blocked <==> ip in old(cache) && ip !in pending && IsBlockedAt(old(cache)[ip], now)
        invariant forall i, j :: 0 <= i < j < |blocked| ==> blocked[i] != blocked[j]
        decreases pending
      {
        var ip :| ip in pending;
        ExpireOutsideStep(old(cache), pending, ip, now);
        var isBlocked := IsBlocked(ip, now);
        if isBlocked {
          blocked := blocked + [ip];
        }
        pending := pending - {ip};
      }
      ExpireOutsideEnds(old(cache), now);
    }

    /** `getCacheStats`: count the records, sum their attempts, and count the ones `isBlocked` confirms. */
    method GetCacheStats(now: int) returns (stats: CacheStats)
      requires Valid()
      modifies this
      ensures Valid()
      ensures cache == ExpireAll(old(cache), now)
      ensures stats.totalRecords == |old(cache)|
      ensures stats.totalAttempts == SumAttempts(old(cache), old(cache).Keys)
      ensures stats.blockedCount == |BlockedKeys(old(cache), now)| <= stats.totalRecords
    {
      ghost var m := cache;
      var totalAttempts := 0;
      var blockedCount := 0;
      var pending := cache.Keys;
      ExpireOutsideEnds(cache, now);
      while pending != {}
        invariant config.Valid() && pending <= m.Keys
        invariant cache == ExpireOutside(m, pending, now)
        invariant totalAttempts == SumAttempts(m, m.Keys - pending)
        invariant blockedCount == |BlockedKeys(m, now) * (m.Keys - pending)|
        decreases pending
      {
        var ip :| ip in pending;
        ExpireOutsideStep(m, pending, ip, now);
        SumAttemptsScanStep(m, pending, ip);
        BlockedKeysScanStep(m, pending, ip, now);
        ExpireOutsideWellFormed(m, pending, now);
        totalAttempts := totalAttempts + |cache[ip].attempts|;
        var isBlocked := IsBlocked(ip, now);
        if isBlocked {
          blockedCount := blockedCount + 1;
        }
        pending := pending - {ip};
      }
      ExpireOutsideEnds(m, now);
      ExpireOutsideWellFormed(m, {}, now);
      BlockedCountBounded(m, now);
      ScanFinished(m, now);
      ExpireAllKeepsAnswers(m, now);
      stats := CacheStats(|cache|, blockedCount, totalAttempts);
    }

    /** `performCleanup`: one sweep over every record. */
    method PerformCleanup(now: int)
      requires Valid()
      modifies this
      ensures Valid()
      ensures cache == Swept(old(cache), now, config)
    {
      var cutoffTime := now - config.timeWindowMinutes * 2 * 60 * 1000;
      assert cutoffTime == config.RetentionCutoff(now);
      var pending := cache.Keys;
      SweptOutsideEnds(cache, now, config);
      while pending != {}
        invariant config.Valid() && pending <= old(cache).Keys
        invariant cache == SweptOutside(old(cache), pending, now, config)
        decreases pending
      {
        var ip :| ip in pending;
        SweptOutsideStep(old(cache), pending, ip, now, config);
        ghost var swept := SweepRecord(old(cache)[ip], now, config);
        var record := cache[ip];
        record := record.(attempts := KeepSince(record.attempts, cutoffTime));
        assert record == TrimAttempts(old(cache)[ip], now, config);
        cache := cache[ip := record];
        if |record.attempts| == 0 && !record.blocked {
          cache := cache - {ip};
          assert swept == None;
        }
        if record.blocked && record.blockUntil.Some? && now > record.blockUntil.value {
          record := record.(blocked := false, blockUntil := None);
          cache := cache[ip := record];
        }
        pending := pending - {ip};
      }
      SweptOutsideEnds(old(cache), now, config);
      SweptOutsideWellFormed(old(cache), {}, now, config);
    }

    /** `shutdown`, as far as the cache goes: every record is dropped. */
    method Shutdown()
      requires Valid()
      modifies this
      ensures Valid()
      ensures cache == map[]
    {
      cache := map[];
    }
  }
}
