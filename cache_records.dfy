/**
 * The per-IP records of the verification cache and every transition the
 * service performs on them, as functions over values. The class in
 * CacheService is proved to follow these functions; the lemmas here state
 * what the transitions mean.
 */
module CacheRecords {
  import opened Wrappers
  import opened AttemptWindow

  /** The service's configuration, with every duration in minutes. */
  datatype CacheConfig = CacheConfig(
    maxAttemptsPerWindow: int,
    timeWindowMinutes: int,
    maxFailedAttempts: int,
    blockDurationMinutes: int,
    cleanupIntervalMinutes: int)
  {
    /** The values are positive (the environment parsing that would guarantee it is not modelled). */
    predicate Valid() {
      && maxAttemptsPerWindow > 0
      && timeWindowMinutes > 0
      && maxFailedAttempts > 0
      && blockDurationMinutes > 0
      && cleanupIntervalMinutes > 0
    }

    /** Start of the decision window at `now`: attempts stamped at or after it are recent. */
    function WindowStart(now: int): int {
      now - timeWindowMinutes * MillisPerMinute
    }

    /** Retention horizon at `now`: attempts stamped before it are dropped. */
    function RetentionCutoff(now: int): int {
      now - timeWindowMinutes * 2 * MillisPerMinute
    }
  }

  /** What the cache keeps for one IP address. */
  datatype UserRecord = UserRecord(
    attempts: seq<Attempt>,
    blocked: bool,
    blockUntil: Option<int>,
    lastAttempt: Option<int>)

  /** The record `getOrCreateRecord` inserts for an unknown address. */
  const NewRecord: UserRecord := UserRecord([], false, None, None)

  /** The cache: IP address to record. */
  type Cache = map<string, UserRecord>

  /** Every transition sets `blocked` and `blockUntil` together and clears them together. */
  predicate WellFormed(r: UserRecord) {
    r.blocked <==> r.blockUntil.Some?
  }

  predicate AllWellFormed(m: Cache) {
    forall ip :: ip in m ==> WellFormed(m[ip])
  }

  /** Storing a well-formed record keeps the whole cache well-formed. */
  lemma AllWellFormedStore(m: Cache, ip: string, r: UserRecord)
    requires AllWellFormed(m) && WellFormed(r)
    ensures AllWellFormed(m[ip := r])
  {
  }

  /** Deleting a record keeps the whole cache well-formed. */
  lemma AllWellFormedDelete(m: Cache, ip: string)
    requires AllWellFormed(m)
    ensures AllWellFormed(m - {ip})
  {
  }

  /** The record stored under `ip`, or a fresh one. */
  function RecordOf(m: Cache, ip: string): UserRecord {
    if ip in m then m[ip] else NewRecord
  }

  /** `getRecentAttempts`: the attempts inside the trailing window. */
  function RecentAttempts(r: UserRecord, now: int, cfg: CacheConfig): seq<Attempt> {
    KeepSince(r.attempts, cfg.WindowStart(now))
  }

  /** `blocked && blockUntil && now > blockUntil`: a block whose time has run out. */
  predicate BlockExpired(r: UserRecord, now: int) {
    r.blocked && r.blockUntil.Some? && now > r.blockUntil.value
  }

  /** Lazy expiry: a block whose time has run out is cleared; anything else is kept. */
  function ExpireBlock(r: UserRecord, now: int): UserRecord {
    if BlockExpired(r, now) then r.(blocked := false, blockUntil := None) else r
  }

  /** The answer `isBlocked` gives for a stored record. */
  predicate IsBlockedAt(r: UserRecord, now: int) {
    r.blocked && !BlockExpired(r, now)
  }

  /** `r` blocked until `minutes` minutes after `now`. */
  function BlockFor(r: UserRecord, now: int, minutes: int): UserRecord {
    r.(blocked := true, blockUntil := Some(now + minutes * MillisPerMinute))
  }

  /** `updateBlockStatus`: auto-block on too many recent failures, then expire a block that has run out. */
  function UpdateBlockStatus(r: UserRecord, now: int, cfg: CacheConfig): UserRecord {
    var failed := FailedCount(RecentAttempts(r, now, cfg));
    var r1 := if failed >= cfg.maxFailedAttempts && !r.blocked then BlockFor(r, now, cfg.blockDurationMinutes) else r;
    ExpireBlock(r1, now)
  }

  /** The trimming step of `cleanOldAttempts` and of the sweep. */
  function TrimAttempts(r: UserRecord, now: int, cfg: CacheConfig): UserRecord {
    r.(attempts := KeepSince(r.attempts, cfg.RetentionCutoff(now)))
  }

  /** A record with no attempts and no block has no reason to be kept. */
  predicate Reclaimable(r: UserRecord) {
    r.attempts == [] && !r.blocked
  }

  /** `cleanOldAttempts` on the record `r` of `ip`: store it trimmed, or delete it when that leaves it reclaimable. */
  function StoreTrimmed(m: Cache, ip: string, r: UserRecord, now: int, cfg: CacheConfig): Cache {
    var t := TrimAttempts(r, now, cfg);
    if Reclaimable(t) then m - {ip} else m[ip := t]
  }

  /** Storing the trimmed record of `ip` ignores whatever `ip` held before. */
  lemma StoreTrimmedOverwrite(m: Cache, ip: string, r: UserRecord, now: int, cfg: CacheConfig)
    ensures StoreTrimmed(m[ip := r], ip, r, now, cfg) == StoreTrimmed(m, ip, r, now, cfg)
  {
    if Reclaimable(TrimAttempts(r, now, cfg)) {
      assert m[ip := r] - {ip} == m - {ip};
    }
  }

  /** The attempt `recordAttempt` appends, and the record with it appended and `lastAttempt` set. */
  function AppendAttempt(r: UserRecord, now: int, success: bool, token: Option<string>, page: Option<string>): UserRecord {
    r.(attempts := r.attempts + [Attempt(now, success, token, page)], lastAttempt := Some(now))
  }

  /** The cache after `recordAttempt(ip, success, token, page)` at `now`. */
  function AfterRecordAttempt(m: Cache, ip: string, success: bool, token: Option<string>, page: Option<string>,
                              now: int, cfg: CacheConfig): Cache {
    var r := UpdateBlockStatus(AppendAttempt(RecordOf(m, ip), now, success, token, page), now, cfg);
    StoreTrimmed(m, ip, r, now, cfg)
  }

  /** The cache after `isBlocked(ip)` at `now`, which applies lazy expiry to that one record. */
  function ExpireKey(m: Cache, ip: string, now: int): Cache {
    if ip in m then m[ip := ExpireBlock(m[ip], now)] else m
  }

  /** The cache after `isBlocked` has been asked about every key. */
  function ExpireAll(m: Cache, now: int): Cache {
    map ip | ip in m :: ExpireBlock(m[ip], now)
  }

  /** `m` with lazy expiry applied to every key outside `pending`: the state part-way through a scan. */
  function ExpireOutside(m: Cache, pending: set<string>, now: int): Cache {
    map ip | ip in m :: if ip in pending then m[ip] else ExpireBlock(m[ip], now)
  }

  /** `durationMinutes || blockDurationMinutes`: an omitted or zero duration falls back to the configured one. */
  function ManualBlockMinutes(durationMinutes: Option<int>, cfg: CacheConfig): int {
    if durationMinutes.Some? && durationMinutes.value != 0 then durationMinutes.value else cfg.blockDurationMinutes
  }

  /** The cache after `blockIp(ip, durationMinutes)` at `now`. */
  function AfterBlockIp(m: Cache, ip: string, durationMinutes: Option<int>, now: int, cfg: CacheConfig): Cache {
    m[ip := BlockFor(RecordOf(m, ip), now, ManualBlockMinutes(durationMinutes, cfg))]
  }

  /** The cache after `unblockIp(ip)`. */
  function AfterUnblockIp(m: Cache, ip: string): Cache {
    if ip in m then m[ip := m[ip].(blocked := false, blockUntil := None)] else m
  }

  /** `getRemainingAttempts(ip)` at `now`. */
  function RemainingAttempts(m: Cache, ip: string, now: int, cfg: CacheConfig): int {
    if ip !in m then cfg.maxAttemptsPerWindow
    else
      var left := cfg.maxAttemptsPerWindow - |RecentAttempts(m[ip], now, cfg)|;
      if left > 0 then left else 0
  }

  /** `getFailedAttemptsCount(ip)` at `now`. */
  function FailedAttemptsCount(m: Cache, ip: string, now: int, cfg: CacheConfig): nat {
    if ip !in m then 0 else FailedCount(RecentAttempts(m[ip], now, cfg))
  }

  /** What `getRecordStats` reports. */
  datatype RecordStats = RecordStats(
    totalAttempts: nat,
    recentAttempts: nat,
    failedAttempts: nat,
    successAttempts: nat,
    isBlocked: bool,
    blockUntil: Option<int>,
    lastAttempt: Option<int>)

  /** The report for an address the cache does not hold. */
  const ZeroStats: RecordStats := RecordStats(0, 0, 0, 0, false, None, None)

  /** `getRecordStats(ip)` at `now`; `blockUntil` is read after the lazy expiry that `isBlocked` performs. */
  function StatsOf(m: Cache, ip: string, now: int, cfg: CacheConfig): RecordStats {
    if ip !in m then ZeroStats
    else
      var r := m[ip];
      var recent := RecentAttempts(r, now, cfg);
      RecordStats(|r.attempts|, |recent|, FailedCount(recent), SucceededCount(recent),
                  IsBlockedAt(r, now), ExpireBlock(r, now).blockUntil, r.lastAttempt)
  }

  /** The keys `getBlockedIps` reports at `now`. */
  function BlockedKeys(m: Cache, now: int): set<string> {
    set ip | ip in m && IsBlockedAt(m[ip], now)
  }

  /** The sum of the attempt-list lengths of the records under `keys`. */
  ghost function SumAttempts(m: Cache, keys: set<string>): nat
    requires keys <= m.Keys
    decreases keys
  {
    if keys == {} then 0
    else
      var ip :| ip in keys;
      |m[ip].attempts| + SumAttempts(m, keys - {ip})
  }

  /** The sweep's treatment of one record: trim; delete when reclaimable; otherwise expire a block that has run out. */
  function SweepRecord(r: UserRecord, now: int, cfg: CacheConfig): Option<UserRecord> {
    var t := TrimAttempts(r, now, cfg);
    if Reclaimable(t) then None else Some(ExpireBlock(t, now))
  }

  /** The cache after `performCleanup` at `now`. */
  function Swept(m: Cache, now: int, cfg: CacheConfig): Cache {
    map ip | ip in m && SweepRecord(m[ip], now, cfg).Some? :: SweepRecord(m[ip], now, cfg).value
  }

  /** Part way through a sweep: the keys in `pending` are still as in `m`, the others are swept. */
  function SweptOutside(m: Cache, pending: set<string>, now: int, cfg: CacheConfig): Cache {
    map ip | ip in m && (ip in pending || SweepRecord(m[ip], now, cfg).Some?) ::
      if ip in pending then m[ip] else SweepRecord(m[ip], now, cfg).value
  }

  // ---------------------------------------------------------------------------
  // Properties
  // ---------------------------------------------------------------------------

  /** The sum over a key set may start from any of its keys. */
  lemma {:induction false} SumAttemptsRemove(m: Cache, keys: set<string>, ip: string)
    requires keys <= m.Keys && ip in keys
    ensures SumAttempts(m, keys) == |m[ip].attempts| + SumAttempts(m, keys - {ip})
    decreases keys
  {
    var j :| j in keys && SumAttempts(m, keys) == |m[j].attempts| + SumAttempts(m, keys - {j});
    if j != ip {
      SumAttemptsRemove(m, keys - {j}, ip);
      SumAttemptsRemove(m, keys - {ip}, j);
      assert keys - {j} - {ip} == keys - {ip} - {j};
    }
  }

  /** A scan that visits one more key adds that key's attempt count to the running sum. */
  lemma SumAttemptsScanStep(m: Cache, pending: set<string>, ip: string)
    requires pending <= m.Keys && ip in pending
    ensures SumAttempts(m, m.Keys - (pending - {ip})) == SumAttempts(m, m.Keys - pending) + |m[ip].attempts|
  {
    var done := m.Keys - pending;
    assert m.Keys - (pending - {ip}) == done + {ip};
    SumAttemptsRemove(m, done + {ip}, ip);
    assert done + {ip} - {ip} == done;
  }

  /** A scan that has not started has changed nothing; one that has finished has expired every key. */
  lemma ExpireOutsideEnds(m: Cache, now: int)
    ensures ExpireOutside(m, m.Keys, now) == m
    ensures ExpireOutside(m, {}, now) == ExpireAll(m, now)
  {
    assert ExpireOutside(m, m.Keys, now) == m;
  }

  /** Each step of a scan expires one more key. */
  lemma ExpireOutsideStep(m: Cache, pending: set<string>, ip: string, now: int)
    requires ip in pending && pending <= m.Keys
    ensures ExpireKey(ExpireOutside(m, pending, now), ip, now) == ExpireOutside(m, pending - {ip}, now)
  {
    ExpiryKeepsAnswer(m[ip], now);
  }

  /** A sweep that has visited no key has changed nothing; one that has visited every key is `Swept`. */
  lemma SweptOutsideEnds(m: Cache, now: int, cfg: CacheConfig)
    ensures SweptOutside(m, m.Keys, now, cfg) == m
    ensures SweptOutside(m, {}, now, cfg) == Swept(m, now, cfg)
  {
    assert SweptOutside(m, m.Keys, now, cfg) == m;
  }

  /** Each step of a sweep deletes one more reclaimable record or stores it trimmed and expired. */
  lemma SweptOutsideStep(m: Cache, pending: set<string>, ip: string, now: int, cfg: CacheConfig)
    requires ip in pending && pending <= m.Keys
    ensures var before := SweptOutside(m, pending, now, cfg);
      var after := SweptOutside(m, pending - {ip}, now, cfg);
      && before[ip] == m[ip]
      && (SweepRecord(m[ip], now, cfg).None? ==> after == before - {ip})
      && (SweepRecord(m[ip], now, cfg).Some? ==> after == before[ip := SweepRecord(m[ip], now, cfg).value])
  {
    var before := SweptOutside(m, pending, now, cfg);
    var after := SweptOutside(m, pending - {ip}, now, cfg);
    if SweepRecord(m[ip], now, cfg).None? {
      assert after == before - {ip};
    } else {
      assert after == before[ip := SweepRecord(m[ip], now, cfg).value];
    }
  }

  /** A sweep, finished or not, keeps every record well-formed. */
  lemma SweptOutsideWellFormed(m: Cache, pending: set<string>, now: int, cfg: CacheConfig)
    requires AllWellFormed(m)
    ensures AllWellFormed(SweptOutside(m, pending, now, cfg))
  {
    forall ip | ip in SweptOutside(m, pending, now, cfg)
      ensures WellFormed(SweptOutside(m, pending, now, cfg)[ip])
    {
      if ip !in pending {
        ExpiryKeepsAnswer(TrimAttempts(m[ip], now, cfg), now);
      }
    }
  }

  /** A scan that visits one more key counts it when it is blocked. */
  lemma BlockedKeysScanStep(m: Cache, pending: set<string>, ip: string, now: int)
    requires pending <= m.Keys && ip in pending
    ensures |BlockedKeys(m, now) * (m.Keys - (pending - {ip}))|
         == |BlockedKeys(m, now) * (m.Keys - pending)| + (if IsBlockedAt(m[ip], now) then 1 else 0)
  {
    var done := m.Keys - pending;
    assert m.Keys - (pending - {ip}) == done + {ip};
    if IsBlockedAt(m[ip], now) {
      assert BlockedKeys(m, now) * (done + {ip}) == BlockedKeys(m, now) * done + {ip};
    } else {
      assert BlockedKeys(m, now) * (done + {ip}) == BlockedKeys(m, now) * done;
    }
  }

  /** A scan with nothing pending has summed and counted over every key. */
  lemma ScanFinished(m: Cache, now: int)
    ensures SumAttempts(m, m.Keys - {}) == SumAttempts(m, m.Keys)
    ensures |BlockedKeys(m, now) * (m.Keys - {})| == |BlockedKeys(m, now)|
  {
    assert m.Keys - {} == m.Keys;
    BlockedCountBounded(m, now);
    assert BlockedKeys(m, now) * m.Keys == BlockedKeys(m, now);
  }

  /** A scan, finished or not, keeps every record well-formed. */
  lemma ExpireOutsideWellFormed(m: Cache, pending: set<string>, now: int)
    requires AllWellFormed(m)
    ensures AllWellFormed(ExpireOutside(m, pending, now))
  {
    forall ip | ip in m && ip !in pending
      ensures WellFormed(ExpireBlock(m[ip], now))
    {
      ExpiryKeepsAnswer(m[ip], now);
    }
  }

  /** Trimming to the retention horizon never changes which attempts are recent. */
  lemma RetentionKeepsWindow(r: UserRecord, now: int, cfg: CacheConfig)
    requires cfg.Valid()
    ensures RecentAttempts(TrimAttempts(r, now, cfg), now, cfg) == RecentAttempts(r, now, cfg)
  {
    KeepSinceNarrow(r.attempts, cfg.RetentionCutoff(now), cfg.WindowStart(now));
  }

  /** Lazy expiry never changes the answer `isBlocked` gives at the same time. */
  lemma ExpiryKeepsAnswer(r: UserRecord, now: int)
    ensures IsBlockedAt(ExpireBlock(r, now), now) == IsBlockedAt(r, now)
    ensures !BlockExpired(ExpireBlock(r, now), now)
    ensures ExpireBlock(r, now).attempts == r.attempts && ExpireBlock(r, now).lastAttempt == r.lastAttempt
    ensures WellFormed(r) ==> WellFormed(ExpireBlock(r, now))
  {
  }

  /**
   * For a well-formed record, `isBlocked` is true exactly while the stored
   * block time has not been passed; the boundary instant itself still counts as blocked.
   */
  lemma BlockedUntilInclusive(r: UserRecord, now: int)
    requires WellFormed(r)
    ensures IsBlockedAt(r, now) <==> r.blockUntil.Some? && now <= r.blockUntil.value
  {
  }

  /**
   * `updateBlockStatus`: it blocks only an unblocked record whose recent
   * failures reach the threshold, for `blockDurationMinutes`; it never extends
   * an existing block; it lifts a block that has run out; it never touches
   * the attempts or `lastAttempt`.
   */
  lemma AutoBlockRule(r: UserRecord, now: int, cfg: CacheConfig)
    requires cfg.Valid()
    ensures var failed := FailedCount(RecentAttempts(r, now, cfg));
      var u := UpdateBlockStatus(r, now, cfg);
      && u.attempts == r.attempts && u.lastAttempt == r.lastAttempt
      && (!r.blocked && failed >= cfg.maxFailedAttempts ==>
            u.blocked && u.blockUntil == Some(now + cfg.blockDurationMinutes * MillisPerMinute))
      && (!r.blocked && failed < cfg.maxFailedAttempts ==> u == r)
      && (r.blocked && !BlockExpired(r, now) ==> u == r)
      && (BlockExpired(r, now) ==> !u.blocked && u.blockUntil == None)
      && (WellFormed(r) ==> WellFormed(u))
  {
  }

  /**
   * `recordAttempt`: afterwards the record exists, holds exactly the old
   * attempts inside the retention horizon followed by one new attempt stamped
   * `now`, has `lastAttempt == now`, and every other key is untouched.
   */
  lemma RecordAttemptEffect(m: Cache, ip: string, success: bool, token: Option<string>, page: Option<string>,
                            now: int, cfg: CacheConfig)
    requires cfg.Valid()
    ensures var m' := AfterRecordAttempt(m, ip, success, token, page, now, cfg);
      && ip in m'
      && m'.Keys == m.Keys + {ip}
      && (forall k :: k in m && k != ip ==> m'[k] == m[k])
      && m'[ip].attempts == KeepSince(RecordOf(m, ip).attempts, cfg.RetentionCutoff(now)) + [Attempt(now, success, token, page)]
      && m'[ip].lastAttempt == Some(now)
  {
    var r := RecordOf(m, ip);
    var a := Attempt(now, success, token, page);
    var u := UpdateBlockStatus(AppendAttempt(r, now, success, token, page), now, cfg);
    assert u.attempts == r.attempts + [a];
    KeepSinceAppend(r.attempts, a, cfg.RetentionCutoff(now));
    assert TrimAttempts(u, now, cfg).attempts != [];
  }

  /** The record `recordAttempt` stores: the appended, re-evaluated record, trimmed; it is never deleted. */
  lemma RecordedRecord(m: Cache, ip: string, success: bool, token: Option<string>, page: Option<string>,
                       now: int, cfg: CacheConfig)
    requires cfg.Valid()
    ensures var u := UpdateBlockStatus(AppendAttempt(RecordOf(m, ip), now, success, token, page), now, cfg);
      var m' := AfterRecordAttempt(m, ip, success, token, page, now, cfg);
      ip in m' && m'[ip] == TrimAttempts(u, now, cfg)
  {
    RecordAttemptEffect(m, ip, success, token, page, now, cfg);
  }

  /** The recent attempts after appending one stamped `now` are the earlier recent ones followed by it. */
  lemma AppendedRecent(r: UserRecord, now: int, success: bool, token: Option<string>, page: Option<string>,
                       cfg: CacheConfig)
    requires cfg.Valid()
    ensures var a := Attempt(now, success, token, page);
      && RecentAttempts(AppendAttempt(r, now, success, token, page), now, cfg) == RecentAttempts(r, now, cfg) + [a]
      && FailedCount(RecentAttempts(AppendAttempt(r, now, success, token, page), now, cfg))
         == FailedCount(RecentAttempts(r, now, cfg)) + (if success then 0 else 1)
  {
    var a := Attempt(now, success, token, page);
    KeepSinceAppend(r.attempts, a, cfg.WindowStart(now));
    FailedCountConcat(RecentAttempts(r, now, cfg), [a]);
  }

  /**
   * Recording a failure that brings an unblocked record's recent failures to
   * the threshold blocks it at once, until `now + blockDurationMinutes`.
   */
  lemma FailureReachingThresholdBlocks(m: Cache, ip: string, token: Option<string>, page: Option<string>,
                                       now: int, cfg: CacheConfig)
    requires cfg.Valid()
    requires !RecordOf(m, ip).blocked
    requires FailedCount(RecentAttempts(RecordOf(m, ip), now, cfg)) + 1 >= cfg.maxFailedAttempts
    ensures var m' := AfterRecordAttempt(m, ip, false, token, page, now, cfg);
      && ip in m' && IsBlockedAt(m'[ip], now)
      && m'[ip].blockUntil == Some(now + cfg.blockDurationMinutes * MillisPerMinute)
  {
    var appended := AppendAttempt(RecordOf(m, ip), now, false, token, page);
    AppendedRecent(RecordOf(m, ip), now, false, token, page, cfg);
    AutoBlockRule(appended, now, cfg);
    RecordedRecord(m, ip, false, token, page, now, cfg);
  }

  /**
   * Recording a success changes no failure count, so it leaves an unblocked
   * record blocked afterwards exactly when its recent failures had already
   * reached the threshold (possible after a manual unblock).
   */
  lemma SuccessBlocksOnlyAtThreshold(m: Cache, ip: string, token: Option<string>, page: Option<string>,
                                     now: int, cfg: CacheConfig)
    requires cfg.Valid()
    requires !RecordOf(m, ip).blocked
    ensures var m' := AfterRecordAttempt(m, ip, true, token, page, now, cfg);
      ip in m' && (m'[ip].blocked <==> FailedCount(RecentAttempts(RecordOf(m, ip), now, cfg)) >= cfg.maxFailedAttempts)
  {
    var appended := AppendAttempt(RecordOf(m, ip), now, true, token, page);
    AppendedRecent(RecordOf(m, ip), now, true, token, page, cfg);
    AutoBlockRule(appended, now, cfg);
    RecordedRecord(m, ip, true, token, page, now, cfg);
  }

  /** `getRemainingAttempts` stays within `[0, maxAttemptsPerWindow]`, is the full quota for an unknown address, and is 0 exactly when the window is full. */
  lemma RemainingAttemptsBounds(m: Cache, ip: string, now: int, cfg: CacheConfig)
    requires cfg.Valid()
    ensures 0 <= RemainingAttempts(m, ip, now, cfg) <= cfg.maxAttemptsPerWindow
    ensures ip !in m ==> RemainingAttempts(m, ip, now, cfg) == cfg.maxAttemptsPerWindow
    ensures RemainingAttempts(m, ip, now, cfg) == 0
        <==> ip in m && |RecentAttempts(m[ip], now, cfg)| >= cfg.maxAttemptsPerWindow
    ensures ip in m && RemainingAttempts(m, ip, now, cfg) > 0
        ==> RemainingAttempts(m, ip, now, cfg) + |RecentAttempts(m[ip], now, cfg)| == cfg.maxAttemptsPerWindow
  {
  }

  /** `getFailedAttemptsCount` is 0 for an unknown address and never exceeds the recent count. */
  lemma FailedAttemptsBounded(m: Cache, ip: string, now: int, cfg: CacheConfig)
    ensures ip !in m ==> FailedAttemptsCount(m, ip, now, cfg) == 0
    ensures ip in m ==> FailedAttemptsCount(m, ip, now, cfg) <= |RecentAttempts(m[ip], now, cfg)|
  {
  }

  /**
   * `getRecordStats`: an unknown address gets the all-zero shape; otherwise
   * failed + successful = recent <= total, and an expired block is reported
   * as not blocked and without `blockUntil`.
   */
  lemma RecordStatsShape(m: Cache, ip: string, now: int, cfg: CacheConfig)
    ensures ip !in m ==> StatsOf(m, ip, now, cfg) == ZeroStats
    ensures var s := StatsOf(m, ip, now, cfg);
      && s.failedAttempts + s.successAttempts == s.recentAttempts <= s.totalAttempts
      && (ip in m ==> s.totalAttempts == |m[ip].attempts| && s.failedAttempts == FailedAttemptsCount(m, ip, now, cfg))
      && (ip in m && BlockExpired(m[ip], now) ==> !s.isBlocked && s.blockUntil == None)
      && (ip in m && WellFormed(m[ip]) ==> (s.isBlocked <==> s.blockUntil.Some?))
      && (s.isBlocked ==> s.blockUntil.Some? ==> now <= s.blockUntil.value)
  {
    if ip in m {
      CountsPartition(RecentAttempts(m[ip], now, cfg));
    }
  }

  /**
   * `blockIp`: an omitted or zero duration means the configured one; the
   * address is blocked from `now` through the end of the duration and not
   * after; a repeated call only resets `blockUntil`; no other key changes.
   */
  lemma BlockIpEffect(m: Cache, ip: string, durationMinutes: Option<int>, now: int, t: int, cfg: CacheConfig)
    ensures (durationMinutes == None || durationMinutes == Some(0)) ==> ManualBlockMinutes(durationMinutes, cfg) == cfg.blockDurationMinutes
    ensures var m' := AfterBlockIp(m, ip, durationMinutes, now, cfg);
      var until := now + ManualBlockMinutes(durationMinutes, cfg) * MillisPerMinute;
      && ip in m' && m'.Keys == m.Keys + {ip}
      && (forall k :: k in m && k != ip ==> m'[k] == m[k])
      && m'[ip].attempts == RecordOf(m, ip).attempts && m'[ip].lastAttempt == RecordOf(m, ip).lastAttempt
      && (IsBlockedAt(m'[ip], t) <==> t <= until)
      && WellFormed(m'[ip])
  {
  }

  /** Blocking twice is blocking once, with the second call's time and duration. */
  lemma BlockIpResets(m: Cache, ip: string, d1: Option<int>, d2: Option<int>, t1: int, t2: int, cfg: CacheConfig)
    ensures AfterBlockIp(AfterBlockIp(m, ip, d1, t1, cfg), ip, d2, t2, cfg) == AfterBlockIp(m, ip, d2, t2, cfg)
  {
  }

  /**
   * `unblockIp`: a no-op for an unknown address; otherwise the address is
   * not blocked at any time afterwards, its history is kept, and no other key changes.
   */
  lemma UnblockIpEffect(m: Cache, ip: string, t: int)
    ensures ip !in m ==> AfterUnblockIp(m, ip) == m
    ensures var m' := AfterUnblockIp(m, ip);
      && m'.Keys == m.Keys
      && (forall k :: k in m && k != ip ==> m'[k] == m[k])
      && (ip in m ==> !IsBlockedAt(m'[ip], t) && WellFormed(m'[ip])
                      && m'[ip].attempts == m[ip].attempts && m'[ip].lastAttempt == m[ip].lastAttempt)
  {
  }

  /** After `clearRecord(ip)` the address reports the all-zero shape, as if never seen, and every other key is kept. */
  lemma ClearRecordForgets(m: Cache, ip: string, now: int, cfg: CacheConfig)
    ensures StatsOf(m - {ip}, ip, now, cfg) == ZeroStats
    ensures (m - {ip}).Keys == m.Keys - {ip}
    ensures RemainingAttempts(m - {ip}, ip, now, cfg) == cfg.maxAttemptsPerWindow
  {
  }

  /** The blocked addresses are a subset of the keys, so their number never exceeds the number of records. */
  lemma {:induction false} BlockedCountBounded(m: Cache, now: int)
    ensures BlockedKeys(m, now) <= m.Keys
    ensures |BlockedKeys(m, now)| <= |m|
    decreases |m|
  {
    if m != map[] {
      var ip :| ip in m;
      var rest := m - {ip};
      BlockedCountBounded(rest, now);
      assert m.Keys == rest.Keys + {ip};
      if IsBlockedAt(m[ip], now) {
        assert BlockedKeys(m, now) == BlockedKeys(rest, now) + {ip};
      } else {
        assert BlockedKeys(m, now) == BlockedKeys(rest, now);
      }
    }
  }

  /** Expiring every key leaves the keys, the attempts and the set of blocked addresses as they were. */
  lemma ExpireAllKeepsAnswers(m: Cache, now: int)
    ensures ExpireAll(m, now).Keys == m.Keys && |ExpireAll(m, now)| == |m|
    ensures BlockedKeys(ExpireAll(m, now), now) == BlockedKeys(m, now)
    ensures forall ip :: ip in m ==> ExpireAll(m, now)[ip].attempts == m[ip].attempts
  {
    var e := ExpireAll(m, now);
    assert e.Keys == m.Keys;
    assert |e| == |e.Keys|;
    forall ip | ip in m ensures IsBlockedAt(e[ip], now) == IsBlockedAt(m[ip], now) {
      ExpiryKeepsAnswer(m[ip], now);
    }
  }

  /**
   * The sweep: it removes exactly the records that are empty and unblocked
   * once trimmed, keeps only attempts inside the retention horizon and in
   * their order, and leaves no block whose time has run out.
   */
  lemma SweptShape(m: Cache, now: int, cfg: CacheConfig)
    ensures var s := Swept(m, now, cfg);
      && s.Keys <= m.Keys
      && (forall ip :: ip in m ==> (ip in s <==> !Reclaimable(TrimAttempts(m[ip], now, cfg))))
      && (forall ip :: ip in s ==> s[ip].attempts == KeepSince(m[ip].attempts, cfg.RetentionCutoff(now)))
      && (forall ip :: ip in s ==> forall a :: a in s[ip].attempts ==> a.timestamp >= cfg.RetentionCutoff(now))
      && (forall ip :: ip in s ==> !BlockExpired(s[ip], now))
      && (forall ip :: ip in s ==> s[ip].lastAttempt == m[ip].lastAttempt)
  {
  }

  /** The sweep changes no recent count and no answer of `isBlocked` at the time it runs. */
  lemma SweepKeepsAnswers(m: Cache, ip: string, now: int, cfg: CacheConfig)
    requires cfg.Valid()
    ensures StatsOf(Swept(m, now, cfg), ip, now, cfg).recentAttempts == StatsOf(m, ip, now, cfg).recentAttempts
    ensures StatsOf(Swept(m, now, cfg), ip, now, cfg).failedAttempts == StatsOf(m, ip, now, cfg).failedAttempts
    ensures StatsOf(Swept(m, now, cfg), ip, now, cfg).isBlocked == StatsOf(m, ip, now, cfg).isBlocked
    ensures RemainingAttempts(Swept(m, now, cfg), ip, now, cfg) == RemainingAttempts(m, ip, now, cfg)
  {
    if ip in m {
      var r := m[ip];
      RetentionKeepsWindow(r, now, cfg);
      var t := TrimAttempts(r, now, cfg);
      if Reclaimable(t) {
        KeepSinceNarrow(r.attempts, cfg.RetentionCutoff(now), cfg.WindowStart(now));
        assert RecentAttempts(r, now, cfg) == [];
      }
    }
  }

  /**
   * A record left empty whose block has just run out is unblocked but kept by
   * one sweep, and removed by the next sweep at the same time or later.
   */
  lemma ExpiredEmptyRecordKeptOnce(m: Cache, ip: string, now: int, later: int, cfg: CacheConfig)
    requires ip in m && now <= later
    requires TrimAttempts(m[ip], now, cfg).attempts == []
    requires BlockExpired(m[ip], now)
    ensures var s := Swept(m, now, cfg);
      ip in s && s[ip].attempts == [] && !s[ip].blocked && ip !in Swept(s, later, cfg)
  {
  }

  /** After two sweeps at the same time, every remaining record still has attempts or an active block. */
  lemma SecondSweepLeavesNothingReclaimable(m: Cache, now: int, cfg: CacheConfig)
    ensures var s := Swept(Swept(m, now, cfg), now, cfg);
      forall ip :: ip in s ==> !Reclaimable(s[ip])
  {
    var s1 := Swept(m, now, cfg);
    var s2 := Swept(s1, now, cfg);
    SweptShape(m, now, cfg);
    forall ip | ip in s2 ensures !Reclaimable(s2[ip]) {
      var t := TrimAttempts(s1[ip], now, cfg);
      assert !BlockExpired(s1[ip], now);
      assert s2[ip] == t;
    }
  }
}
