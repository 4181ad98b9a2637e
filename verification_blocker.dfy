/**
 * The verification middleware: the admission gate in front of verification
 * (`verificationBlocker`) and the rule by which the response body is turned
 * into one recorded attempt (`recordVerificationAttempt`).
 */
module VerificationBlocker {
  import opened Wrappers
  import opened AttemptWindow
  import opened CacheRecords
  import opened CacheService
  import opened ClientRequest
  import opened VerificationController

  // ---------------------------------------------------------------------------
  // The client key
  // ---------------------------------------------------------------------------

  /**
   * The key the gate uses: the first forwarded address when the header is
   * truthy (even when it trims to nothing), else the first truthy of
   * `req.ip` and the socket's address, else `'unknown'`. An empty array header
   * throws before the cache is consulted.
   */
  function ClientKey(req: Request): (k: Lookup)
    ensures k != Missing
  {
    if HeaderPresent(req.forwarded) then ForwardedAddress(req.forwarded)
    else if Truthy(req.ip) then Found(req.ip.value)
    else if Truthy(req.remoteAddress) then Found(req.remoteAddress.value)
    else Found("unknown")
  }

  /**
   * The gate and the controller read the same address, except that where the
   * controller ends up with nothing or with an empty fallback address the gate
   * uses `'unknown'`.
   */
  lemma ClientKeyAgreesWithController(req: Request)
    ensures HeaderPresent(req.forwarded) ==> ClientKey(req) == GetClientIp(req)
    ensures GetClientIp(req).Found? && GetClientIp(req).address != "" ==> ClientKey(req) == GetClientIp(req)
    ensures GetClientIp(req) == Missing ==> ClientKey(req) == Found("unknown")
    ensures !HeaderPresent(req.forwarded) && GetClientIp(req) == Found("") ==> ClientKey(req) == Found("unknown")
  {
  }

  // ---------------------------------------------------------------------------
  // The gate
  // ---------------------------------------------------------------------------

  /**
   * What the gate does with a request: admit it with its key attached (and
   * call `next`), reject it with 429 because the key is blocked (reporting
   * the block end and the recent failures) or because its window is full, or
   * fail with the TypeError of the key extraction.
   */
  datatype Decision =
    | Admit(clientIp: string)
    | Blocked(blockUntil: Option<int>, failedAttempts: nat)
    | RateLimited
    | ExtractionFailed

  /** The gate's decision for key `key` against the cache `m` at `now`: the blocked check first, then the rate limit. */
  function Decide(m: Cache, key: string, now: int, cfg: CacheConfig): Decision {
    if key in m && IsBlockedAt(m[key], now) then
      var stats := StatsOf(m, key, now, cfg);
      Blocked(stats.blockUntil, stats.failedAttempts)
    else if RemainingAttempts(m, key, now, cfg) <= 0 then RateLimited
    else Admit(key)
  }

  /** The gate's decision for a whole request. */
  function DecideRequest(m: Cache, req: Request, now: int, cfg: CacheConfig): Decision {
    var key := ClientKey(req);
    if key.TypeError? then ExtractionFailed else Decide(m, key.address, now, cfg)
  }

  /** The cache after the gate has looked at `req`: lazy expiry of the key, if one could be read. */
  function CacheAfterGate(m: Cache, req: Request, now: int): Cache {
    var key := ClientKey(req);
    if key.TypeError? then m else ExpireKey(m, key.address, now)
  }

  /**
   * The three outcomes for a key, each exactly characterised: blocked when
   * `isBlocked` holds (whatever the window says); rate-limited when not
   * blocked and the window already holds `maxAttemptsPerWindow` attempts;
   * admitted otherwise, in particular always for an unknown address. A
   * rejection for a block reports the recent failures and, for a well-formed
   * record, a block end that has not been passed.
   */
  lemma DecisionCases(m: Cache, key: string, now: int, cfg: CacheConfig)
    requires cfg.Valid()
    ensures Decide(m, key, now, cfg).Blocked? <==> key in m && IsBlockedAt(m[key], now)
    ensures Decide(m, key, now, cfg) == RateLimited <==>
      key in m && !IsBlockedAt(m[key], now) && |RecentAttempts(m[key], now, cfg)| >= cfg.maxAttemptsPerWindow
    ensures Decide(m, key, now, cfg) == Admit(key) <==>
      key !in m || (!IsBlockedAt(m[key], now) && |RecentAttempts(m[key], now, cfg)| < cfg.maxAttemptsPerWindow)
    ensures Decide(m, key, now, cfg).Blocked? ==>
      && Decide(m, key, now, cfg).failedAttempts == FailedAttemptsCount(m, key, now, cfg)
      && (WellFormed(m[key]) ==> Decide(m, key, now, cfg).blockUntil.Some?
                                 && now <= Decide(m, key, now, cfg).blockUntil.value)
  {
    RemainingAttemptsBounds(m, key, now, cfg);
    RecordStatsShape(m, key, now, cfg);
  }

  /** The periodic sweep never changes a decision of the gate made at the time it runs. */
  lemma SweepInvisibleToGate(m: Cache, key: string, now: int, cfg: CacheConfig)
    requires cfg.Valid()
    ensures Decide(Swept(m, now, cfg), key, now, cfg) == Decide(m, key, now, cfg)
  {
    var s := Swept(m, now, cfg);
    SweepKeepsAnswers(m, key, now, cfg);
    RecordStatsShape(m, key, now, cfg);
    RecordStatsShape(s, key, now, cfg);
    if key in m && IsBlockedAt(m[key], now) {
      SweptShape(m, now, cfg);
      assert key in s;
      assert s[key].blockUntil == m[key].blockUntil;
    }
  }

  /**
   * A failed verification that brings the recent failures of an unblocked
   * address up to `maxFailedAttempts` closes the gate for that address until
   * `blockDurationMinutes` from now.
   */
  lemma ThresholdFailureClosesGate(m: Cache, ip: string, token: Option<string>, page: Option<string>,
                                   now: int, cfg: CacheConfig)
    requires cfg.Valid()
    requires !RecordOf(m, ip).blocked
    requires FailedCount(RecentAttempts(RecordOf(m, ip), now, cfg)) + 1 >= cfg.maxFailedAttempts
    ensures var m' := AfterRecordAttempt(m, ip, false, token, page, now, cfg);
      Decide(m', ip, now, cfg).Blocked?
      && Decide(m', ip, now, cfg).blockUntil == Some(now + cfg.blockDurationMinutes * MillisPerMinute)
  {
    FailureReachingThresholdBlocks(m, ip, token, page, now, cfg);
  }

  /** Lazy expiry of a key changes neither the report of a blocked record nor the remaining attempts. */
  lemma ExpireKeyKeepsReaders(m: Cache, key: string, now: int, cfg: CacheConfig)
    ensures RemainingAttempts(ExpireKey(m, key, now), key, now, cfg) == RemainingAttempts(m, key, now, cfg)
    ensures key in m && IsBlockedAt(m[key], now) ==> StatsOf(ExpireKey(m, key, now), key, now, cfg) == StatsOf(m, key, now, cfg)
  {
    if key in m {
      ExpiryKeepsAnswer(m[key], now);
    }
  }

  /**
   * `verificationBlocker`: extract the key, ask `isBlocked` (which applies
   * lazy expiry), report the stats of a blocked key, else check the remaining
   * attempts, else admit.
   */
  method Gate(service: VerificationCacheService, req: Request, now: int) returns (d: Decision)
    requires service.Valid()
    modifies service
    ensures service.Valid()
    ensures d == DecideRequest(old(service.cache), req, now, service.config)
    ensures service.cache == CacheAfterGate(old(service.cache), req, now)
  {
    var key := ClientKey(req);
    if key.TypeError? {
      return ExtractionFailed;
    }
    var ipAddress := key.address;
    ExpireKeyKeepsReaders(service.cache, ipAddress, now, service.config);
    var blocked := service.IsBlocked(ipAddress, now);
    if blocked {
      var stats := service.GetRecordStats(ipAddress, now);
      return Blocked(stats.blockUntil, stats.failedAttempts);
    }
    var remainingAttempts := service.GetRemainingAttempts(ipAddress, now);
    if remainingAttempts <= 0 {
      return RateLimited;
    }
    return Admit(ipAddress);
  }

  // ---------------------------------------------------------------------------
  // The recorder
  // ---------------------------------------------------------------------------

  /** A JSON value as the intercepted `res.json` receives it (numbers are kept as integers: only their kind matters here). */
  datatype JsValue =
    | Undefined
    | Null
    | Bool(b: bool)
    | Number(n: int)
    | Str(s: string)
    | Array(items: seq<JsValue>)
    | Object(fields: map<string, JsValue>)

  /** `body && typeof body === 'object'`: an array or an object (`null` is an object but falsy). */
  predicate IsObject(v: JsValue) {
    v.Array? || v.Object?
  }

  /** `responseBody.success === true`: strictly the boolean `true`. */
  predicate SucceededBody(v: JsValue) {
    v.Object? && "success" in v.fields && v.fields["success"] == Bool(true)
  }

  /** The token and page of the verification request body. */
  datatype RequestBody = RequestBody(token: Option<string>, page: Option<string>)

  /** The attempt the recorder hands to `recordAttempt`. */
  datatype Recording = Recording(ip: string, success: bool, token: Option<string>, page: Option<string>)

  /**
   * The recording rule: with a cache attached, a truthy client address and
   * an object body, one attempt is recorded, successful exactly when
   * `body.success === true`, with the request's token and page.
   */
  function AttemptToRecord(hasCache: bool, clientIp: Option<string>, requestBody: Option<RequestBody>,
                           body: JsValue): Option<Recording> {
    if hasCache && Truthy(clientIp) && IsObject(body) then
      var token := if requestBody.Some? then requestBody.value.token else None;
      var page := if requestBody.Some? then requestBody.value.page else None;
      Some(Recording(clientIp.value, SucceededBody(body), token, page))
    else None
  }

  /** The cache after the recorder has run. */
  function CacheAfterRecording(m: Cache, rec: Option<Recording>, now: int, cfg: CacheConfig): Cache {
    match rec
    case None => m
    case Some(r) => AfterRecordAttempt(m, r.ip, r.success, r.token, r.page, now, cfg)
  }

  /**
   * The recorder adds exactly one attempt, stamped `now`, to the record of
   * the client address and touches no other address, or leaves the cache
   * alone when the cache, the address or an object body is missing. Only the
   * literal `true` counts as success: a truthy non-boolean `success` records a
   * failure.
   */
  lemma RecorderRecordsOne(m: Cache, hasCache: bool, clientIp: Option<string>, requestBody: Option<RequestBody>,
                           body: JsValue, now: int, cfg: CacheConfig)
    requires cfg.Valid()
    ensures var rec := AttemptToRecord(hasCache, clientIp, requestBody, body);
      var m' := CacheAfterRecording(m, rec, now, cfg);
      && (rec.None? <==> !hasCache || !Truthy(clientIp) || !IsObject(body))
      && (rec.None? ==> m' == m)
      && (rec.Some? ==>
            var ip := clientIp.value;
            && rec.value.ip == ip
            && (rec.value.success <==> body.Object? && "success" in body.fields && body.fields["success"] == Bool(true))
            && ip in m' && m'.Keys == m.Keys + {ip}
            && (forall k :: k in m && k != ip ==> m'[k] == m[k])
            && m'[ip].attempts == KeepSince(RecordOf(m, ip).attempts, cfg.RetentionCutoff(now))
                                  + [Attempt(now, rec.value.success, rec.value.token, rec.value.page)])
  {
    var rec := AttemptToRecord(hasCache, clientIp, requestBody, body);
    if rec.Some? {
      RecordAttemptEffect(m, clientIp.value, rec.value.success, rec.value.token, rec.value.page, now, cfg);
    }
  }

  /**
   * An object body whose `success` is anything but the boolean `true` (a
   * truthy number, string, array or object, `false`, or no `success` at all)
   * is recorded as a failure.
   */
  lemma NonTrueSuccessIsFailure(clientIp: string, requestBody: Option<RequestBody>, fields: map<string, JsValue>)
    requires clientIp != ""
    requires "success" !in fields || fields["success"] != Bool(true)
    ensures AttemptToRecord(true, Some(clientIp), requestBody, Object(fields)).Some?
    ensures !AttemptToRecord(true, Some(clientIp), requestBody, Object(fields)).value.success
  {
  }

  /**
   * `recordVerificationAttempt`'s replacement for `res.json`: record the
   * attempt by the rule above, then hand the same body on.
   */
  method RecordVerificationAttempt(service: VerificationCacheService?, clientIp: Option<string>,
                                   requestBody: Option<RequestBody>, body: JsValue, now: int)
    returns (sent: JsValue)
    requires service != null ==> service.Valid()
    modifies service
    ensures sent == body
    ensures service != null ==> service.Valid()
    ensures service != null ==>
      service.cache == CacheAfterRecording(old(service.cache), AttemptToRecord(true, clientIp, requestBody, body),
                                           now, service.config)
  {
    if service != null && Truthy(clientIp) && IsObject(body) {
      var success := SucceededBody(body);
      var token := if requestBody.Some? then requestBody.value.token else None;
      var page := if requestBody.Some? then requestBody.value.page else None;
      service.RecordAttempt(clientIp.value, success, token, page, now);
    }
    return body;
  }
}
