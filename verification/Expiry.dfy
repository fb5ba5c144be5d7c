/** When a cached token stops being injected, or that it is not to be cached. */
module Expiry {
  import opened Wrappers
  import opened ExpiringMap

  function Min(a: real, b: Option<real>): real {
    if b.Some? && b.value < a then b.value else a
  }

  /**
   * `min(requestedAt + ttl, requestedAt + expires_in, notAfter) - margin`,
   * when that is after `now`. An absent bound is `None`.
   *
   * The result is within every bound given and is one of them; there is none
   * exactly when some bound, less the margin, is not ahead of `now`.
   */
  function CacheExpiresAt(
    requestedAt: Instant, now: Instant, ttlSeconds: real, marginSeconds: real,
    expiresIn: Option<real>, notAfter: Option<Instant>): (r: Option<Instant>)
    ensures r.Some? ==>
      var raw := r.value + marginSeconds * 1000.0;
      && now < r.value
      && AtOrBefore(raw, requestedAt, ttlSeconds, expiresIn, notAfter)
      && (raw == requestedAt + ttlSeconds * 1000.0
          || (expiresIn.Some? && raw == requestedAt + expiresIn.value * 1000.0)
          || (notAfter.Some? && raw == notAfter.value))
    ensures r.None? <==> !Before(now + marginSeconds * 1000.0, requestedAt, ttlSeconds, expiresIn, notAfter)
  {
    var expiresAt :=
      Min(Min(requestedAt + ttlSeconds * 1000.0,
              if expiresIn.Some? then Some(requestedAt + expiresIn.value * 1000.0) else None),
          notAfter)
      - marginSeconds * 1000.0;
    if expiresAt > now then Some(expiresAt) else None
  }

  /** At or before every bound. */
  predicate AtOrBefore(
    at: Instant, requestedAt: Instant, ttlSeconds: real, expiresIn: Option<real>, notAfter: Option<Instant>)
  {
    && at <= requestedAt + ttlSeconds * 1000.0
    && (expiresIn.Some? ==> at <= requestedAt + expiresIn.value * 1000.0)
    && (notAfter.Some? ==> at <= notAfter.value)
  }

  /** Strictly before every bound. */
  predicate Before(
    at: Instant, requestedAt: Instant, ttlSeconds: real, expiresIn: Option<real>, notAfter: Option<Instant>)
  {
    && at < requestedAt + ttlSeconds * 1000.0
    && (expiresIn.Some? ==> at < requestedAt + expiresIn.value * 1000.0)
    && (notAfter.Some? ==> at < notAfter.value)
  }
}
