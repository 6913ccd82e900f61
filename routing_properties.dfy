/**
 * What the routing middleware guarantees, stated over `Construct` (which
 * `Routing.Create` is proved to follow) and over `Routing.Invoke`.
 */
module RoutingProperties {
  import opened PhpRuntime
  import opened HandlerResolution
  import opened RoutingMiddleware

  /** Generator, parser and collection pass their checks (lines 41, 50, 59). */
  predicate CollaboratorsValid(w: World, o: Options)
  {
    && InstanceOf(w, o.generator, DataGeneratorInterface)
    && InstanceOf(w, o.parser, RouteParserInterface)
    && w.isCallable(o.collection)
  }

  /** Caching is off, or the driver is a cache the constructor can query. */
  predicate DriverUsable(o: Options)
  {
    !CachingOn(o) || o.cacheDriver.CacheDriver?
  }

  /** The constructor takes its table from the cache. */
  predicate CacheHit(o: Options, entries: map<string, Value>)
  {
    CachingOn(o) && CacheKey in entries && entries[CacheKey].Arr?
  }

  predicate IsStoreCall(e: Event)
  {
    e.StoreContains? || e.StoreFetched? || e.StoreSaved?
  }

  /**
   * The generator is checked first, then the parser, then the collection;
   * the first failing check decides the error, and nothing else is called.
   */
  lemma ChecksRunInOrder(w: World, o: Options, entries: map<string, Value>)
    ensures var c := Construct(w, o, entries);
            && (c.result == Failure(InvalidGenerator) <==> !InstanceOf(w, o.generator, DataGeneratorInterface))
            && (c.result == Failure(InvalidParser) <==>
                  InstanceOf(w, o.generator, DataGeneratorInterface) && !InstanceOf(w, o.parser, RouteParserInterface))
            && (c.result == Failure(InvalidCollection) <==>
                  InstanceOf(w, o.generator, DataGeneratorInterface) && InstanceOf(w, o.parser, RouteParserInterface)
                  && !w.isCallable(o.collection))
            && (!CollaboratorsValid(w, o) ==> c.events == [] && c.store == entries)
  {
  }

  /**
   * With caching on, an absent or null driver is rejected before the store
   * is queried; any other non-cache value passes that check, and the
   * constructor then fails on calling `contains` on it.
   */
  lemma CacheDriverChecked(w: World, o: Options, entries: map<string, Value>)
    requires CollaboratorsValid(w, o) && CachingOn(o)
    ensures var c := Construct(w, o, entries);
            && (c.result == Failure(InvalidCacheDriver) <==> o.cacheDriver.NoDriver?)
            && (c.result == Failure(CacheDriverCallFailed) <==> o.cacheDriver.OtherDriver?)
            && (!o.cacheDriver.CacheDriver? ==> c.events == [] && c.store == entries)
  {
  }

  /**
   * Once the checks pass, the collection callback runs exactly once unless
   * the cache holds an array under the key, in which case it does not run
   * and that array is the dispatch data.
   */
  lemma CollectionRunsUnlessCacheHit(w: World, o: Options, entries: map<string, Value>)
    requires CollaboratorsValid(w, o) && DriverUsable(o)
    ensures var c := Construct(w, o, entries);
            && multiset(c.events)[CollectionInvoked] == (if CacheHit(o, entries) then 0 else 1)
            && c.data == (if CacheHit(o, entries) then entries[CacheKey] else w.collect(o.collection, o.parser, o.generator))
  {
    var c := Construct(w, o, entries);
    var after: seq<Event> := if w.isCallable(o.dispatcher) then [FactoryInvoked(c.data)] else [];
    if CachingOn(o) {
      CachedConstruction(w, o, entries);
      var lookup := CacheLookup(entries).0;
      assert CollectionInvoked !in lookup;
      CollectionCount(lookup, !CacheHit(o, entries), [StoreSaved(CacheKey, Str(w.varExport(c.data)))] + after);
    } else {
      CollectionCount([], true, after);
    }
  }

  /** How many collection events a run with or without the collection step holds. */
  lemma CollectionCount(before: seq<Event>, collected: bool, after: seq<Event>)
    requires CollectionInvoked !in before && CollectionInvoked !in after
    ensures var events := before + (if collected then [CollectionInvoked] else []) + after;
            multiset(events)[CollectionInvoked] == (if collected then 1 else 0)
  {
    var middle: seq<Event> := if collected then [CollectionInvoked] else [];
    assert multiset(before + middle + after) == multiset(before) + multiset(middle) + multiset(after);
    assert CollectionInvoked !in multiset(before) && CollectionInvoked !in multiset(after);
  }

  /**
   * With caching on, the events are the lookup's, then the collection
   * unless the lookup hit, then one save of the exported dispatch data,
   * then the factory call if the factory is callable; the save is the
   * store's only change.
   */
  lemma CachedConstruction(w: World, o: Options, entries: map<string, Value>)
    requires CollaboratorsValid(w, o) && CachingOn(o) && o.cacheDriver.CacheDriver?
    ensures var c := Construct(w, o, entries);
            var lookup := CacheLookup(entries);
            && c.events == lookup.0 + (if CacheHit(o, entries) then [] else [CollectionInvoked])
                           + [StoreSaved(CacheKey, Str(w.varExport(c.data)))]
                           + (if w.isCallable(o.dispatcher) then [FactoryInvoked(c.data)] else [])
            && c.store == entries[CacheKey := Str(w.varExport(c.data))]
            && c.data == (if CacheHit(o, entries) then entries[CacheKey] else w.collect(o.collection, o.parser, o.generator))
  {
  }

  /**
   * With caching on, the store is written exactly once, with the exported
   * text of the dispatch data, on a hit as on a miss.
   */
  lemma CacheWrittenOnce(w: World, o: Options, entries: map<string, Value>)
    requires CollaboratorsValid(w, o) && CachingOn(o) && o.cacheDriver.CacheDriver?
    ensures var c := Construct(w, o, entries);
            var saved := StoreSaved(CacheKey, Str(w.varExport(c.data)));
            && multiset(c.events)[saved] == 1
            && (forall e :: e in c.events && e.StoreSaved? ==> e == saved)
            && c.store == entries[CacheKey := Str(w.varExport(c.data))]
  {
    CachedConstruction(w, o, entries);
    var c := Construct(w, o, entries);
    var before := CacheLookup(entries).0 + (if CacheHit(o, entries) then [] else [CollectionInvoked]);
    var after: seq<Event> := if w.isCallable(o.dispatcher) then [FactoryInvoked(c.data)] else [];
    SingleSave(before, StoreSaved(CacheKey, Str(w.varExport(c.data))), after);
  }

  /** A save surrounded by events that are not saves is the only save. */
  lemma SingleSave(before: seq<Event>, saved: Event, after: seq<Event>)
    requires saved.StoreSaved?
    requires forall e :: e in before ==> !e.StoreSaved?
    requires forall e :: e in after ==> !e.StoreSaved?
    ensures multiset(before + [saved] + after)[saved] == 1
    ensures forall e :: e in before + [saved] + after && e.StoreSaved? ==> e == saved
  {
    assert multiset(before + [saved] + after) == multiset(before) + multiset{saved} + multiset(after);
    assert saved !in multiset(before) && saved !in multiset(after);
  }

  /** Every store call the constructor makes uses the one fixed key. */
  lemma CacheKeyFixed(w: World, o: Options, entries: map<string, Value>)
    ensures var c := Construct(w, o, entries);
            forall e :: e in c.events && IsStoreCall(e) ==> e.key == CacheKey
  {
    if CollaboratorsValid(w, o) && CachingOn(o) && o.cacheDriver.CacheDriver? {
      CachedConstruction(w, o, entries);
      var lookup := CacheLookup(entries);
      assert forall e :: e in lookup.0 ==> e.key == CacheKey;
    }
  }

  /** With caching off, the store is neither queried nor written. */
  lemma CacheOffLeavesStoreAlone(w: World, o: Options, entries: map<string, Value>)
    requires !CachingOn(o)
    ensures var c := Construct(w, o, entries);
            (forall e :: e in c.events ==> !IsStoreCall(e)) && c.store == entries
  {
  }

  /**
   * The text written to the store is never an array, so a later
   * construction against that store finds no cached table and runs the
   * collection again.
   */
  lemma SecondConstructionRebuilds(w: World, o: Options, w': World, o': Options, entries: map<string, Value>)
    requires CollaboratorsValid(w, o) && CachingOn(o) && o.cacheDriver.CacheDriver?
    requires CollaboratorsValid(w', o') && CachingOn(o') && o'.cacheDriver.CacheDriver?
    ensures var written := Construct(w, o, entries).store;
            !CacheHit(o', written) && multiset(Construct(w', o', written).events)[CollectionInvoked] == 1
  {
    CacheWrittenOnce(w, o, entries);
    var written := Construct(w, o, entries).store;
    CollectionRunsUnlessCacheHit(w', o', written);
  }

  /**
   * Once the dispatch data is obtained, construction succeeds exactly when
   * the dispatcher factory is callable and returns a FastRoute dispatcher,
   * which is then the middleware's dispatcher.
   */
  lemma DispatcherFromFactory(w: World, o: Options, entries: map<string, Value>)
    requires CollaboratorsValid(w, o) && DriverUsable(o)
    ensures var c := Construct(w, o, entries);
            && (c.result.Success? <==> InstanceOf(w, FactoryResult(w, o, c.data), DispatcherInterface))
            && (c.result.Failure? ==> c.result.error == InvalidDispatcher)
            && (c.result.Success? ==>
                  w.isCallable(o.dispatcher) && c.result.value == w.call(o.dispatcher, [c.data])
                  && c.events[|c.events| - 1] == FactoryInvoked(c.data))
  {
  }

  /** The route depends on the request only through its method and path. */
  lemma RoutedByMethodAndPath(w: World, dispatcher: Value, request: Value, other: Value)
    requires w.methodOf(other) == w.methodOf(request) && w.pathOf(other) == w.pathOf(request)
    ensures RouteInfoFor(w, dispatcher, other) == RouteInfoFor(w, dispatcher, request)
  {
  }

  /** A NOT_FOUND status raises the not-found error; nothing is called after the lookup. */
  lemma NotFoundRaises(r: Routing, w: World, request: Value, response: Value, next: Value)
    requires Admissible(w, request, response, next)
    requires RouteInfoFor(w, r.dispatcher, request).status == StatusNotFound
    ensures r.Invoke(w, request, response, next)
         == Reply([Dispatched(w.methodOf(request), w.pathOf(request))], Failure(NotFound))
  {
  }

  /** A METHOD_NOT_ALLOWED status raises the method-not-allowed error; nothing is called after the lookup. */
  lemma MethodNotAllowedRaises(r: Routing, w: World, request: Value, response: Value, next: Value)
    requires Admissible(w, request, response, next)
    requires RouteInfoFor(w, r.dispatcher, request).status == StatusMethodNotAllowed
    ensures r.Invoke(w, request, response, next)
         == Reply([Dispatched(w.methodOf(request), w.pathOf(request))], Failure(MethodNotAllowed))
  {
  }

  /** On FOUND, an error resolving the handler propagates unchanged and `$next` is not called. */
  lemma FoundResolutionErrorPropagates(r: Routing, w: World, request: Value, response: Value, next: Value)
    requires Admissible(w, request, response, next)
    requires var info := RouteInfoFor(w, r.dispatcher, request);
             info.status == StatusFound && Resolve(w, info.handler, request, response, info.vars).result.Failure?
    ensures var info := RouteInfoFor(w, r.dispatcher, request);
            var handled := Resolve(w, info.handler, request, response, info.vars);
            r.Invoke(w, request, response, next)
            == Reply([Dispatched(w.methodOf(request), w.pathOf(request))] + handled.calls, handled.result)
  {
  }

  /** On FOUND, a handler result that is not a response raises the unexpected-value error. */
  lemma FoundNonResponseRaises(r: Routing, w: World, request: Value, response: Value, next: Value)
    requires Admissible(w, request, response, next)
    requires var info := RouteInfoFor(w, r.dispatcher, request);
             var handled := Resolve(w, info.handler, request, response, info.vars);
             info.status == StatusFound && handled.result.Success?
             && !InstanceOf(w, handled.result.value, ResponseInterface)
    ensures var reply := r.Invoke(w, request, response, next);
            reply.result == Failure(UnexpectedValue) && forall c :: c in reply.calls ==> !c.NextCalled?
  {
  }

  /** On FOUND, a response returned by the handler is passed, with the request, to `$next`. */
  lemma FoundResponseGoesToNext(r: Routing, w: World, request: Value, response: Value, next: Value)
    requires Admissible(w, request, response, next) && next != Null
    requires var info := RouteInfoFor(w, r.dispatcher, request);
             var handled := Resolve(w, info.handler, request, response, info.vars);
             info.status == StatusFound && handled.result.Success?
             && InstanceOf(w, handled.result.value, ResponseInterface)
    ensures var info := RouteInfoFor(w, r.dispatcher, request);
            var handled := Resolve(w, info.handler, request, response, info.vars);
            r.Invoke(w, request, response, next)
            == Reply([Dispatched(w.methodOf(request), w.pathOf(request))] + handled.calls
                       + [NextCalled(request, handled.result.value)],
                     Success(w.call(next, [request, handled.result.value])))
  {
  }

  /**
   * A status the switch does not list skips the handler: the response given
   * to the middleware goes to `$next` (or, with no `$next`, calling it fails).
   */
  lemma UnlistedStatusPassesResponseThrough(r: Routing, w: World, request: Value, response: Value, next: Value)
    requires Admissible(w, request, response, next)
    requires RouteInfoFor(w, r.dispatcher, request).status !in {StatusNotFound, StatusFound, StatusMethodNotAllowed}
    ensures r.Invoke(w, request, response, next)
         == var lookup := [Dispatched(w.methodOf(request), w.pathOf(request))];
            if next == Null then Reply(lookup, Failure(NextNotCallable))
            else Reply(lookup + [NextCalled(request, response)], Success(w.call(next, [request, response])))
  {
  }
}
