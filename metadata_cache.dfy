// The metadata document cache of `MetadataAccess`: when `_get` answers from
// the cache and when it fetches, what `_markCacheDirty` changes, and how the
// fetched payloads become the cached document.

module MetadataCache {
  import opened Wrappers
  import opened Bytes
  import opened ChangePacking
  import opened Seqs

  /**
   * A metadata document, represented by the changes it is built from (the
   * document itself is what Automerge makes of them).
   */
  type Doc = seq<Change>

  /** One cache entry, keyed by the base64url form of the public key. */
  datatype CacheEntry = CacheEntry(lastAccess: int, dirty: bool, doc: Option<Doc>)

  type Cache = map<string, CacheEntry>

  /**
   * What the metadata node answered: the literal "Key not found", or the
   * DAG nodes' payloads, already decrypted.
   */
  datatype Fetched = KeyNotFound | Nodes(payloads: seq<seq<byte>>)

  /** A payload whose packing cannot be read (a header past its end). */
  datatype GetFault = MalformedPayload

  /** The decision in `_get`: answer from the cache only for a clean entry, when not told to refresh. */
  predicate UsesCache(cache: Cache, key: string, markCacheDirty: bool)
  {
    !markCacheDirty && key in cache && !cache[key].dirty
  }

  /** All changes of all payloads, in order; `None` when any payload is malformed. */
  function ChangesOf(payloads: seq<seq<byte>>): (r: Option<seq<Change>>)
    ensures payloads == [] ==> r == Some([])
  {
    if payloads == [] then Some([])
    else
      match Unpack(payloads[0])
      case None => None
      case Some(cs) =>
        match ChangesOf(payloads[1..])
        case None => None
        case Some(rest) => Some(cs + rest)
  }

  /** The packing of each batch of changes, as the node stores them. */
  function PackAll(batches: seq<seq<Change>>): (r: seq<seq<byte>>)
    ensures |r| == |batches|
  {
    if batches == [] then [] else [Pack(batches[0])] + PackAll(batches[1..])
  }

  /** Every batch fits the 32-bit count and length words. */
  predicate BatchesFit(batches: seq<seq<Change>>)
  {
    forall k :: 0 <= k < |batches| ==> |batches[k]| < TWO_32 && LengthsFit(batches[k])
  }

  /** Reading back packed batches gives every change, in order. */
  lemma {:induction false} ChangesOfPacked(batches: seq<seq<Change>>)
    requires BatchesFit(batches)
    ensures ChangesOf(PackAll(batches)) == Some(Concat(batches))
  {
    if batches != [] {
      var rest := batches[1..];
      assert BatchesFit(rest) by {
        forall k | 0 <= k < |rest|
          ensures |rest[k]| < TWO_32 && LengthsFit(rest[k])
        {
          assert rest[k] == batches[k + 1];
        }
      }
      UnpackPack(batches[0]);
      ChangesOfPacked(rest);
      assert PackAll(batches)[1..] == PackAll(rest);
    }
  }

  /** What a fetch yields, when the cache is not used. */
  function FetchResult(fetched: Fetched): (r: Result<Option<Doc>, GetFault>)
    ensures fetched.KeyNotFound? ==> r == Ok(None)
    ensures fetched.Nodes? ==> (r.Ok? <==> ChangesOf(fetched.payloads).Some?)
    ensures r.Ok? && r.value.Some? ==> fetched.Nodes? && ChangesOf(fetched.payloads) == r.value
  {
    match fetched
    case KeyNotFound => Ok(None)
    case Nodes(ps) =>
      match ChangesOf(ps)
      case None => Err(MalformedPayload)
      case Some(doc) => Ok(Some(doc))
  }

  /** `_markCacheDirty` on a cache: flags an existing entry, never inserts one. */
  function MarkDirty(cache: Cache, key: string): (r: Cache)
    ensures r.Keys == cache.Keys
    ensures key in cache ==> r[key].dirty && r[key].doc == cache[key].doc
    ensures forall k :: k in cache && k != key ==> r[k] == cache[k]
  {
    if key in cache then cache[key := cache[key].(dirty := true)] else cache
  }

  /** The answer of `_get` and the cache it leaves. */
  datatype Outcome = Outcome(result: Result<Option<Doc>, GetFault>, cache: Cache)

  /** `_get`, with the node's answer given and the clock read once. */
  function Lookup(cache: Cache, key: string, markCacheDirty: bool, now: int, fetched: Fetched): (o: Outcome)
    ensures UsesCache(cache, key, markCacheDirty) ==>
              o.result == Ok(cache[key].doc) && o.cache.Keys == cache.Keys &&
              o.cache[key].lastAccess == now && !o.cache[key].dirty && o.cache[key].doc == cache[key].doc
    ensures UsesCache(cache, key, markCacheDirty) ==> forall k :: k in cache && k != key ==> o.cache[k] == cache[k]
    ensures !UsesCache(cache, key, markCacheDirty) ==> o.result == FetchResult(fetched)
    ensures !UsesCache(cache, key, markCacheDirty) && o.result.Ok? && o.result.value.Some? ==>
              o.cache == cache[key := CacheEntry(now, false, o.result.value)]
    ensures !UsesCache(cache, key, markCacheDirty) && !(o.result.Ok? && o.result.value.Some?) ==>
              o.cache == cache
  {
    if UsesCache(cache, key, markCacheDirty) then
      Outcome(Ok(cache[key].doc), cache[key := cache[key].(lastAccess := now)])
    else
      match FetchResult(fetched)
      case Ok(Some(doc)) => Outcome(Ok(Some(doc)), cache[key := CacheEntry(now, false, Some(doc))])
      case r => Outcome(r, cache)
  }

  /** A document just fetched is answered from the cache next time, whatever the node says then. */
  lemma FetchThenHit(cache: Cache, key: string, mark: bool, now: int, fetched: Fetched, later: int, again: Fetched)
    requires !UsesCache(cache, key, mark)
    requires Lookup(cache, key, mark, now, fetched).result.Ok?
    requires Lookup(cache, key, mark, now, fetched).result.value.Some?
    ensures var o := Lookup(cache, key, mark, now, fetched);
            Lookup(o.cache, key, false, later, again).result == o.result
  {
  }

  /** After `_markCacheDirty`, the next `_get` of that key goes to the node. */
  lemma MarkThenFetch(cache: Cache, key: string, mark: bool, now: int, fetched: Fetched)
    ensures Lookup(MarkDirty(cache, key), key, mark, now, fetched).result == FetchResult(fetched)
  {
  }

  /** A key fetched from packed batches yields every change of every batch. */
  lemma FetchPacked(cache: Cache, key: string, mark: bool, now: int, batches: seq<seq<Change>>)
    requires BatchesFit(batches) && !UsesCache(cache, key, mark)
    ensures var o := Lookup(cache, key, mark, now, Nodes(PackAll(batches)));
            o.result == Ok(Some(Concat(batches))) &&
            o.cache == cache[key := CacheEntry(now, false, Some(Concat(batches)))]
  {
    ChangesOfPacked(batches);
  }

  /** The mutable part of `MetadataAccess`: its `cache` field. */
  class MetadataAccess {
    var cache: Cache

    constructor()
      ensures cache == map[]
    {
      cache := map[];
    }

    /** `_markCacheDirty`: flags the entry for `pub` if there is one. */
    method MarkCacheDirty(pub: string)
      modifies this
      ensures cache == MarkDirty(old(cache), pub)
    {
      if pub in cache {
        var cached := cache[pub];
        cache := cache[pub := cached.(dirty := true)];
      }
    }

    /** `_get`: the cached document for a clean entry, otherwise the fetched one, cached. */
    method Get(pub: string, markCacheDirty: bool, now: int, fetched: Fetched)
      returns (r: Result<Option<Doc>, GetFault>)
      modifies this
      ensures r == Lookup(old(cache), pub, markCacheDirty, now, fetched).result
      ensures cache == Lookup(old(cache), pub, markCacheDirty, now, fetched).cache
    {
      if markCacheDirty || pub !in cache || cache[pub].dirty {
        match fetched {
          case KeyNotFound =>
            return Ok(None);
          case Nodes(ps) =>
            var changes := ChangesOf(ps);
            if changes.None? {
              return Err(MalformedPayload);
            }
            Remember(pub, now, changes.value);
            return Ok(Some(changes.value));
        }
      } else {
        var cached := cache[pub];
        cache := cache[pub := cached.(lastAccess := now)];
        return Ok(cached.doc);
      }
    }

    /** The entry written after a fetch or a committed change. */
    method Remember(pub: string, now: int, doc: Doc)
      modifies this
      ensures cache == old(cache)[pub := CacheEntry(now, false, Some(doc))]
    {
      cache := cache[pub := CacheEntry(now, false, Some(doc))];
    }

    /** The entry dropped by the one-minute timer, `_delete` or `_multiDelete`. */
    method Forget(pub: string)
      modifies this
      ensures cache == old(cache) - {pub}
      ensures !UsesCache(cache, pub, false)
    {
      cache := cache - {pub};
    }
  }
}
