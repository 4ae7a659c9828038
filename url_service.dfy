/** The URL service (services/url_service.go): creation with write-through
    caching and cache-aside lookup, over the storage collection and a cache
    that is a plain map from "url:" + code to the original URL. The clock, the
    code generator's outcome, the URL parser and the health of each store are
    parameters. */
module Service {
  import opened Wrappers
  import opened GoRuntime
  import opened Errors
  import opened Validation
  import opened Storage

  /** The body of a create request; ExpirationMs is a Go int64. */
  datatype UrlRequest = UrlRequest(url: string, alias: string, expirationMs: Int64)

  datatype UrlResponse = UrlResponse(shortCode: string)

  const CachePrefix: string := "url:"

  /** The cache key of a short code, fmt.Sprintf("url:%s", code). */
  function CacheKey(code: string): (key: string)
    ensures |key| == |CachePrefix| + |code| && key[..|CachePrefix|] == CachePrefix && key[|CachePrefix|..] == code
  {
    CachePrefix + code
  }

  predicate IsCacheKey(key: string)
  {
    |key| >= |CachePrefix| && key[..|CachePrefix|] == CachePrefix
  }

  /** The code a cache key stands for. */
  function CodeOf(key: string): string
    requires IsCacheKey(key)
  {
    key[|CachePrefix|..]
  }

  lemma CacheKeyRoundTrip(code: string)
    ensures IsCacheKey(CacheKey(code)) && CodeOf(CacheKey(code)) == code
  {
  }

  lemma CodeOfRoundTrip(key: string)
    requires IsCacheKey(key)
    ensures CacheKey(CodeOf(key)) == key
  {
    assert key == key[..|CachePrefix|] + key[|CachePrefix|..];
  }

  /** Distinct codes never share a cache entry. */
  lemma CacheKeyInjective(a: string, b: string)
    ensures CacheKey(a) == CacheKey(b) <==> a == b
  {
    if CacheKey(a) == CacheKey(b) {
      CacheKeyRoundTrip(a);
      CacheKeyRoundTrip(b);
    }
  }

  /** The expiration of a request made at now (in nanoseconds):
      time.Duration(ms) * time.Millisecond is an int64 product, so it wraps
      around for more than about 292 years. */
  function ExpirationFor(ms: Int64, now: Time): (e: Option<Time>)
    ensures e.Some? <==> ms > 0
    ensures 0 < ms && ms * 1_000_000 <= MaxInt64 ==> e == Some(now + ms * 1_000_000)
    ensures e.Some? ==> (e.value - now - ms * 1_000_000) % 0x1_0000_0000_0000_0000 == 0
  {
    if ms > 0 then Some(now + Wrap64(ms * 1_000_000)) else None
  }

  /** The smallest expiration_ms whose nanosecond product overflows: the
      mapping it creates is already expired when it is stored. */
  lemma HugeExpirationIsPast(now: Time)
    ensures ExpirationFor(9_223_372_036_855, now) == Some(now - 9_223_372_036_854_551_616)
    ensures IsExpired(UrlMapping("", "", ExpirationFor(9_223_372_036_855, now), "", "", now, now), now)
  {
    assert Wrap64(9_223_372_036_855 * 1_000_000) == -9_223_372_036_854_551_616;
  }

  /** The write-through and repopulate rule: cache when there is no
      expiration (for 24 hours) or when the time until it is positive. */
  predicate CacheWorthy(expiration: Option<Time>, now: Time): (worthy: bool)
    ensures expiration.None? ==> worthy
    ensures expiration.Some? ==> (worthy <==> now < expiration.value)
  {
    expiration.None? || expiration.value - now > 0
  }

  /** Whatever is worth caching has not expired; the converse fails only at
      the instant of expiry itself. */
  lemma CacheWorthyIsLive(m: UrlMapping, now: Time)
    ensures CacheWorthy(m.expiration, now) ==> !IsExpired(m, now)
    ensures !CacheWorthy(m.expiration, now) ==> IsExpired(m, now) || m.expiration == Some(now)
  {
  }

  class UrlService {
    const storage: UrlStorage
    var cache: map<string, string>

    ghost predicate Valid()
      reads this, storage
    {
      storage.Valid()
    }

    /** Every cache entry holds the original URL of a stored mapping. */
    ghost predicate Coherent()
      reads this, storage
    {
      forall key :: key in cache ==>
        IsCacheKey(key) && CodeOf(key) in storage.docs && storage.docs[CodeOf(key)].originalUrl == cache[key]
    }

    constructor (storage: UrlStorage)
      requires storage.Valid()
      ensures this.storage == storage && cache == map[]
      ensures Valid() && Coherent()
    {
      this.storage := storage;
      cache := map[];
    }

    /** CreateShortURL. `generated` is what the code generator returns,
        `existsFails` and `storeFails` are the driver failures of the alias
        check and the insert, and `cacheUp` says whether Redis answers; a
        failing cache write is ignored. On every error path neither the
        collection nor the cache changes. */
    method CreateShortURL(req: UrlRequest, userId: string, now: Time, parse: string -> ParsedUrl,
                          generated: Result<string>, existsFails: bool, storeFails: bool, cacheUp: bool)
      returns (r: Result<UrlResponse>)
      requires Valid()
      modifies this, storage
      ensures Valid()
      ensures old(Coherent()) ==> Coherent()
      ensures r.Err? ==> storage.docs == old(storage.docs) && cache == old(cache)
      // the URL is checked first, then the alias
      ensures ValidateURL(req.url, parse).Err? ==> r == Err(ValidateURL(req.url, parse).error)
      ensures ValidateURL(req.url, parse).Ok? && ValidateAlias(req.alias) != Nil ==> r == Err(ValidateAlias(req.alias))
      ensures ValidateURL(req.url, parse).Ok? && ValidateAlias(req.alias) == Nil && req.alias != "" ==>
        (existsFails ==> r == Err(StoreFault)) &&
        (!existsFails && req.alias in old(storage.docs) ==> r == Err(App(ErrAliasAlreadyExists)))
      ensures ValidateURL(req.url, parse).Ok? && ValidateAlias(req.alias) == Nil && req.alias == "" && generated.Err? ==>
        r == Err(generated.error)
      // success: the code is the alias or else the generated code, stored with the validated URL
      ensures r.Ok? ==>
        ValidateURL(req.url, parse).Ok? && ValidateAlias(req.alias) == Nil && !storeFails &&
        r.value.shortCode == (if req.alias != "" then req.alias else generated.value) &&
        r.value.shortCode !in old(storage.docs) &&
        storage.docs == old(storage.docs)[r.value.shortCode :=
          UrlMapping(ValidateURL(req.url, parse).value, req.alias, ExpirationFor(req.expirationMs, now),
                     userId, r.value.shortCode, now, now)] &&
        cache == (if cacheUp && CacheWorthy(ExpirationFor(req.expirationMs, now), now)
                  then old(cache)[CacheKey(r.value.shortCode) := ValidateURL(req.url, parse).value]
                  else old(cache))
      // every check passed and the insert went through
      ensures (ValidateURL(req.url, parse).Ok? && ValidateAlias(req.alias) == Nil && !storeFails &&
               if req.alias != "" then !existsFails && req.alias !in old(storage.docs)
               else generated.Ok? && generated.value !in old(storage.docs)) ==> r.Ok?
    {
      var validated := ValidateURL(req.url, parse);
      if validated.Err? {
        return Err(validated.error);
      }
      var aliasErr := ValidateAlias(req.alias);
      if aliasErr != Nil {
        return Err(aliasErr);
      }
      var shortCode: string;
      if req.alias != "" {
        var present := storage.Exists(req.alias, existsFails);
        if present.Err? {
          return Err(present.error);
        }
        if present.value {
          return Err(App(ErrAliasAlreadyExists));
        }
        shortCode := req.alias;
      } else {
        if generated.Err? {
          return Err(generated.error);
        }
        shortCode := generated.value;
      }
      var expiration := ExpirationFor(req.expirationMs, now);
      var mapping := UrlMapping(validated.value, req.alias, expiration, userId, "", now, now);
      var err := storage.Store(shortCode, mapping, now, storeFails);
      if err != Nil {
        return Err(err);
      }
      if cacheUp && CacheWorthy(expiration, now) {
        CacheKeyRoundTrip(shortCode);
        cache := cache[CacheKey(shortCode) := validated.value];
      }
      return Ok(UrlResponse(shortCode));
    }

    /** DeleteExpiredURL: drop the cache entry (when Redis answers) and the
        document (unless the delete fails, which is ignored). */
    method DeleteExpiredURL(shortCode: string, cacheUp: bool, deleteFails: bool)
      requires Valid()
      modifies this, storage
      ensures Valid()
      ensures cache == if cacheUp then old(cache) - {CacheKey(shortCode)} else old(cache)
      ensures storage.docs == if deleteFails then old(storage.docs) else old(storage.docs) - {shortCode}
      ensures old(Coherent()) && cacheUp ==> Coherent()
    {
      if cacheUp {
        cache := cache - {CacheKey(shortCode)};
      }
      var err := storage.Delete(shortCode, deleteFails);
      if old(Coherent()) && cacheUp {
        forall key | key in cache
          ensures IsCacheKey(key) && CodeOf(key) != shortCode
        {
          CodeOfRoundTrip(key);
        }
      }
    }

    /** GetOriginalURL: a cache hit (only consulted when useCache) answers
        without touching storage; otherwise the document decides, an expired
        one being deleted, and a live one repopulating the cache when
        useCache. */
    method GetOriginalURL(shortCode: string, useCache: bool, now: Time, cacheUp: bool, getFails: bool, deleteFails: bool)
      returns (r: Result<string>)
      requires Valid()
      modifies this, storage
      ensures Valid()
      ensures old(Coherent()) && cacheUp ==> Coherent()
      ensures useCache && cacheUp && CacheKey(shortCode) in old(cache) ==>
        r == Ok(old(cache)[CacheKey(shortCode)]) && cache == old(cache) && storage.docs == old(storage.docs)
      ensures !(useCache && cacheUp && CacheKey(shortCode) in old(cache)) ==>
        (getFails ==> r == Err(StoreFault) && cache == old(cache) && storage.docs == old(storage.docs)) &&
        (!getFails && shortCode !in old(storage.docs) ==>
          r == Err(App(ErrShortCodeNotFound)) && cache == old(cache) && storage.docs == old(storage.docs)) &&
        (!getFails && shortCode in old(storage.docs) && IsExpired(old(storage.docs)[shortCode], now) ==>
          r == Err(App(ErrShortCodeExpired)) &&
          cache == (if cacheUp then old(cache) - {CacheKey(shortCode)} else old(cache)) &&
          storage.docs == (if deleteFails then old(storage.docs) else old(storage.docs) - {shortCode})) &&
        (!getFails && shortCode in old(storage.docs) && !IsExpired(old(storage.docs)[shortCode], now) ==>
          r == Ok(old(storage.docs)[shortCode].originalUrl) && storage.docs == old(storage.docs) &&
          cache == (if useCache && cacheUp && CacheWorthy(old(storage.docs)[shortCode].expiration, now)
                    then old(cache)[CacheKey(shortCode) := old(storage.docs)[shortCode].originalUrl]
                    else old(cache)))
    {
      if useCache && cacheUp && CacheKey(shortCode) in cache {
        return Ok(cache[CacheKey(shortCode)]);
      }
      var found := storage.Get(shortCode, getFails);
      if found.Err? {
        return Err(found.error);
      }
      if found.value.None? {
        return Err(App(ErrShortCodeNotFound));
      }
      var mapping := found.value.value;
      if IsExpired(mapping, now) {
        DeleteExpiredURL(shortCode, cacheUp, deleteFails);
        return Err(App(ErrShortCodeExpired));
      }
      if useCache && cacheUp && CacheWorthy(mapping.expiration, now) {
        CacheKeyRoundTrip(shortCode);
        cache := cache[CacheKey(shortCode) := mapping.originalUrl];
      }
      return Ok(mapping.originalUrl);
    }
  }

  /** A create followed, before the expiration, by a lookup returns the
      validated URL, with or without the cache. */
  method CreateThenGet(svc: UrlService, req: UrlRequest, userId: string, now: Time, later: Time,
                       parse: string -> ParsedUrl, generated: Result<string>, useCache: bool)
      returns (created: Result<UrlResponse>, got: Result<string>)
    requires svc.Valid() && svc.Coherent() && now <= later
    requires ValidateURL(req.url, parse).Ok? && ValidateAlias(req.alias) == Nil
    requires if req.alias != "" then req.alias !in svc.storage.docs
             else generated.Ok? && generated.value !in svc.storage.docs
    requires ExpirationFor(req.expirationMs, now).Some? ==> later <= ExpirationFor(req.expirationMs, now).value
    modifies svc, svc.storage
    ensures created.Ok? && got == Ok(ValidateURL(req.url, parse).value)
  {
    created := svc.CreateShortURL(req, userId, now, parse, generated, false, false, true);
    got := svc.GetOriginalURL(created.value.shortCode, useCache, later, true, false, false);
  }
}
