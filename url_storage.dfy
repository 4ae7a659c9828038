/** The MongoDB collection of URL mappings (services/url_storage.go). The
    collection is a map from `short_url` to the document: the unique index on
    `short_url` that CreateIndexes sets up is what makes it a map, and Valid()
    says every document sits under its own `short_url`. Every operation takes a
    flag saying whether the driver call fails. */
module Storage {
  import opened Wrappers
  import opened Errors

  /** A wall-clock instant, in nanoseconds (Go's time.Time). */
  type Time = int

  /** A stored URL mapping, with the fields the services use. */
  datatype UrlMapping = UrlMapping(
    originalUrl: string,
    alias: string,
    expiration: Option<Time>,
    userId: string,
    shortUrl: string,
    createdAt: Time,
    updatedAt: Time)

  /** The error MongoDB reports when an insert or update would give two
      documents the same value of a unique index. */
  const DuplicateKey: Error := Other("E11000 duplicate key error")

  /** IsExpired: a mapping without expiration never expires; one with an
      expiration has expired once now is strictly after it. */
  predicate IsExpired(m: UrlMapping, now: Time): (expired: bool)
    ensures m.expiration.None? ==> !expired
    ensures m.expiration.Some? && now <= m.expiration.value ==> !expired
  {
    m.expiration.Some? && now > m.expiration.value
  }

  /** A mapping without expiration never expires; one with an expiration is
      live up to and including that instant and expired at every later one. */
  lemma ExpiryIsPermanent(m: UrlMapping, now: Time, later: Time)
    requires now <= later
    ensures m.expiration.None? ==> !IsExpired(m, now)
    ensures m.expiration.Some? ==> (IsExpired(m, now) <==> m.expiration.value < now)
    ensures m.expiration.Some? ==> !IsExpired(m, m.expiration.value) && IsExpired(m, m.expiration.value + 1)
    ensures IsExpired(m, now) ==> IsExpired(m, later)
  {
  }

  /** The document Store inserts for a mapping. */
  function Stamped(m: UrlMapping, shortCode: string, now: Time): (d: UrlMapping)
    ensures d.shortUrl == shortCode && d.createdAt == now && d.updatedAt == now
    ensures d.originalUrl == m.originalUrl && d.alias == m.alias && d.expiration == m.expiration && d.userId == m.userId
  {
    m.(shortUrl := shortCode, createdAt := now, updatedAt := now)
  }

  class UrlStorage {
    var docs: map<string, UrlMapping>

    ghost predicate Valid()
      reads this
    {
      forall k :: k in docs ==> docs[k].shortUrl == k
    }

    /** NewURLStorage, over a collection that already holds `docs`. */
    constructor (docs: map<string, UrlMapping>)
      requires forall k :: k in docs ==> docs[k].shortUrl == k
      ensures Valid() && this.docs == docs
    {
      this.docs := docs;
    }

    /** Store: insert the mapping under shortCode with both timestamps set to
        now. The unique index refuses a code that is already present. */
    method Store(shortCode: string, mapping: UrlMapping, now: Time, fails: bool) returns (err: Error)
      requires Valid()
      modifies this
      ensures Valid()
      ensures fails ==> err == StoreFault && docs == old(docs)
      ensures !fails && shortCode in old(docs) ==> err == DuplicateKey && docs == old(docs)
      ensures !fails && shortCode !in old(docs) ==> err == Nil && docs == old(docs)[shortCode := Stamped(mapping, shortCode, now)]
    {
      if fails {
        return StoreFault;
      }
      if shortCode in docs {
        return DuplicateKey;
      }
      docs := docs[shortCode := Stamped(mapping, shortCode, now)];
      return Nil;
    }

    /** Get: the document whose short_url is shortCode; a missing one is
        Ok(None), not an error. */
    method Get(shortCode: string, fails: bool) returns (r: Result<Option<UrlMapping>>)
      requires Valid()
      ensures fails ==> r == Err(StoreFault)
      ensures !fails ==> r.Ok? && (r.value.Some? <==> exists k :: k in docs && docs[k].shortUrl == shortCode)
      ensures !fails && r.value.Some? ==> shortCode in docs && r.value.value == docs[shortCode]
    {
      if fails {
        return Err(StoreFault);
      }
      if shortCode in docs {
        return Ok(Some(docs[shortCode]));
      }
      return Ok(None);
    }

    /** Exists: whether some document has short_url == shortCode (a count > 0). */
    method Exists(shortCode: string, fails: bool) returns (r: Result<bool>)
      requires Valid()
      ensures fails ==> r == Err(StoreFault)
      ensures !fails ==> r == Ok(exists k :: k in docs && docs[k].shortUrl == shortCode)
      ensures !fails ==> r == Ok(shortCode in docs)
    {
      if fails {
        return Err(StoreFault);
      }
      return Ok(shortCode in docs);
    }

    /** Delete: remove the document for shortCode; deleting a missing code is
        not an error. Every other document stays as it was. */
    method Delete(shortCode: string, fails: bool) returns (err: Error)
      requires Valid()
      modifies this
      ensures Valid()
      ensures fails ==> err == StoreFault && docs == old(docs)
      ensures !fails ==> err == Nil && docs == old(docs) - {shortCode}
    {
      if fails {
        return StoreFault;
      }
      docs := docs - {shortCode};
      return Nil;
    }

    /** GetByAlias: some document whose alias field equals alias (FindOne
        promises no particular one), or Ok(None) when there is none. */
    method GetByAlias(alias: string, fails: bool) returns (r: Result<Option<UrlMapping>>)
      requires Valid()
      ensures fails ==> r == Err(StoreFault)
      ensures !fails ==> r.Ok? && (r.value.Some? <==> exists k :: k in docs && docs[k].alias == alias)
      ensures !fails && r.value.Some? ==> r.value.value in docs.Values && r.value.value.alias == alias
    {
      if fails {
        return Err(StoreFault);
      }
      if k :| k in docs && docs[k].alias == alias {
        return Ok(Some(docs[k]));
      }
      return Ok(None);
    }

    /** GetByUserID: every document of the user, each once, in no particular
        order (the cursor drained into a slice). */
    method GetByUserID(userId: string, fails: bool) returns (r: Result<seq<UrlMapping>>)
      requires Valid()
      ensures fails ==> r == Err(StoreFault)
      ensures !fails ==> r.Ok?
      ensures !fails ==> forall m :: m in r.value <==> m in docs.Values && m.userId == userId
      ensures !fails ==> forall i, j :: 0 <= i < j < |r.value| ==> r.value[i] != r.value[j]
    {
      if fails {
        return Err(StoreFault);
      }
      var mappings: seq<UrlMapping> := [];
      var pending := docs.Keys;
      while pending != {}
        invariant pending <= docs.Keys
        invariant forall m :: m in mappings <==> exists k :: k in docs && k !in pending && docs[k] == m && m.userId == userId
        invariant forall i :: 0 <= i < |mappings| ==> mappings[i].shortUrl !in pending
        invariant forall i, j :: 0 <= i < j < |mappings| ==> mappings[i] != mappings[j]
        decreases pending
      {
        var k :| k in pending;
        if docs[k].userId == userId {
          mappings := mappings + [docs[k]];
        }
        pending := pending - {k};
      }
      return Ok(mappings);
    }

    /** Update: `$set` all fields of mapping, with updated_at now, on the
        document for shortCode. A missing code matches nothing and changes
        nothing (no upsert). The fields set include short_url itself, so a
        mapping carrying another code moves the document to that code, unless
        the unique index already holds it. */
    method Update(shortCode: string, mapping: UrlMapping, now: Time, fails: bool) returns (err: Error)
      requires Valid()
      modifies this
      ensures Valid()
      ensures fails ==> err == StoreFault && docs == old(docs)
      ensures !fails && shortCode !in old(docs) ==> err == Nil && docs == old(docs)
      ensures !fails && shortCode in old(docs) && mapping.shortUrl != shortCode && mapping.shortUrl in old(docs) ==>
        err == DuplicateKey && docs == old(docs)
      ensures !fails && shortCode in old(docs) && (mapping.shortUrl == shortCode || mapping.shortUrl !in old(docs)) ==>
        err == Nil && docs == (old(docs) - {shortCode})[mapping.shortUrl := mapping.(updatedAt := now)]
    {
      if fails {
        return StoreFault;
      }
      if shortCode !in docs {
        return Nil;
      }
      if mapping.shortUrl != shortCode && mapping.shortUrl in docs {
        return DuplicateKey;
      }
      docs := (docs - {shortCode})[mapping.shortUrl := mapping.(updatedAt := now)];
      return Nil;
    }
  }

  /** Store then Get: the mapping comes back under its code with both
      timestamps at the time of the store and every other field as given. */
  method StoreThenGet(s: UrlStorage, code: string, m: UrlMapping, now: Time) returns (r: Result<Option<UrlMapping>>)
    requires s.Valid() && code !in s.docs
    modifies s
    ensures r == Ok(Some(Stamped(m, code, now)))
  {
    var err := s.Store(code, m, now, false);
    r := s.Get(code, false);
  }

  /** An Update that keeps the code overwrites the document in place. */
  lemma UpdateInPlace(docs: map<string, UrlMapping>, code: string, m: UrlMapping, now: Time)
    requires code in docs && m.shortUrl == code
    ensures ((docs - {code})[m.shortUrl := m.(updatedAt := now)]).Keys == docs.Keys
    ensures ((docs - {code})[m.shortUrl := m.(updatedAt := now)]) == docs[code := m.(updatedAt := now)]
  {
  }
}
