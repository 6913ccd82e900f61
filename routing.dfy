/**
 * The `Routing` middleware: construction from an options array (validation,
 * cache lookup or route collection, cache write, dispatcher construction)
 * and the per-request entry point.
 */
module RoutingMiddleware {
  import opened PhpRuntime
  import opened DoctrineCache
  import opened HandlerResolution

  /** The single key the compiled route table is cached under. */
  const CacheKey: string := "jowy.routing.cache"

  const DataGeneratorInterface: string := "FastRoute\\DataGenerator"
  const RouteParserInterface: string := "FastRoute\\RouteParser"
  const DispatcherInterface: string := "FastRoute\\Dispatcher"

  /** What the options array holds under "cacheDriver". */
  datatype Driver =
    | NoDriver                      // key absent, or set to null
    | OtherDriver                   // set to a value that is neither null nor a Doctrine cache
    | CacheDriver(store: CacheStore)

  /** The options array, by the keys the constructor reads; an absent key reads as `Null`. */
  datatype Options = Options(
    collection: Value,
    generator: Value,
    parser: Value,
    dispatcher: Value,
    cache: Value,
    cacheDriver: Driver)

  /** The errors construction can end in. */
  datatype ConfigError =
    | InvalidGenerator       // InvalidArgumentException, line 42
    | InvalidParser          // InvalidArgumentException, line 51
    | InvalidCollection      // InvalidArgumentException, line 60
    | InvalidCacheDriver     // InvalidArgumentException, line 73
    | CacheDriverCallFailed  // Error: `contains` called on a value that is not a cache
    | InvalidDispatcher      // InvalidArgumentException, line 112

  /** One call from the constructor into a collaborator, in order. */
  datatype Event =
    | StoreContains(key: string)
    | StoreFetched(key: string)
    | CollectionInvoked
    | StoreSaved(key: string, value: Value)
    | FactoryInvoked(data: Value)

  /**
   * The outcome of a construction: the calls made, the cache store's entries
   * afterwards, the dispatch data obtained (`Null` if none was), and the
   * dispatcher or the error.
   */
  datatype Construction = Construction(
    events: seq<Event>,
    store: map<string, Value>,
    data: Value,
    result: Result<Value, ConfigError>)

  /** `isset($options["cache"]) && $options["cache"] === true` */
  predicate CachingOn(o: Options)
    ensures CachingOn(o) <==> o.cache.Bool? && o.cache.b
  {
    o.cache == Bool(true)
  }

  function DriverStore(d: Driver): (footprint: set<object>)
  {
    if d.CacheDriver? then {d.store} else {}
  }

  function EntriesOf(d: Driver): (entries: map<string, Value>)
    reads DriverStore(d)
  {
    if d.CacheDriver? then d.store.entries else map[]
  }

  /**
   * Lines 81-87: the calls made to look the table up, and the cached table
   * (`Null` unless the key is present and holds an array).
   */
  function CacheLookup(entries: map<string, Value>): (r: (seq<Event>, Value))
    ensures r.1 != Null <==> CacheKey in entries && entries[CacheKey].Arr?
    ensures r.1 != Null ==> r.1 == entries[CacheKey]
  {
    if CacheKey in entries then
      if entries[CacheKey].Arr? then
        ([StoreContains(CacheKey), StoreFetched(CacheKey), StoreFetched(CacheKey)], entries[CacheKey])
      else
        ([StoreContains(CacheKey), StoreFetched(CacheKey)], Null)
    else
      ([StoreContains(CacheKey)], Null)
  }

  function Rejected(entries: map<string, Value>, e: ConfigError): (c: Construction)
  {
    Construction([], entries, Null, Failure(e))
  }

  /**
   * What `new Routing($options)` does, given the cache store's entries
   * beforehand (ignored unless the driver is a cache).
   */
  function Construct(w: World, o: Options, entries: map<string, Value>): (c: Construction)
    ensures c.result.Failure? && c.result.error != InvalidDispatcher ==> c.events == [] && c.store == entries
  {
    if !InstanceOf(w, o.generator, DataGeneratorInterface) then Rejected(entries, InvalidGenerator)
    else if !InstanceOf(w, o.parser, RouteParserInterface) then Rejected(entries, InvalidParser)
    else if !w.isCallable(o.collection) then Rejected(entries, InvalidCollection)
    else if CachingOn(o) && o.cacheDriver.NoDriver? then Rejected(entries, InvalidCacheDriver)
    else if CachingOn(o) && o.cacheDriver.OtherDriver? then Rejected(entries, CacheDriverCallFailed)
    else
      var (lookupEvents, cached) := if CachingOn(o) then CacheLookup(entries) else ([], Null);
      var (buildEvents, data) :=
        if cached == Null then (lookupEvents + [CollectionInvoked], w.collect(o.collection, o.parser, o.generator))
        else (lookupEvents, cached);
      var saved := Str(w.varExport(data));
      var (saveEvents, store) :=
        if CachingOn(o) then (buildEvents + [StoreSaved(CacheKey, saved)], entries[CacheKey := saved])
        else (buildEvents, entries);
      var events := if w.isCallable(o.dispatcher) then saveEvents + [FactoryInvoked(data)] else saveEvents;
      var dispatcher := FactoryResult(w, o, data);
      Construction(events, store, data,
        if InstanceOf(w, dispatcher, DispatcherInterface) then Success(dispatcher) else Failure(InvalidDispatcher))
  }

  /** What line 110 assigns to the dispatcher field, given the dispatch data. */
  function FactoryResult(w: World, o: Options, data: Value): (dispatcher: Value)
    ensures !w.isCallable(o.dispatcher) ==> !InstanceOf(w, dispatcher, DispatcherInterface)
  {
    if w.isCallable(o.dispatcher) then w.call(o.dispatcher, [data]) else Null
  }

  /** The request-level type declarations of `__invoke`. */
  predicate Admissible(w: World, request: Value, response: Value, next: Value)
    ensures Admissible(w, request, response, next) ==> request.Obj? && response.Obj?
  {
    && InstanceOf(w, request, RequestInterface)
    && InstanceOf(w, response, ResponseInterface)
    && (next == Null || w.isCallable(next))
  }

  /** `$this->dispatcher->dispatch($request->getMethod(), $request->getUri()->getPath())` */
  function RouteInfoFor(w: World, dispatcher: Value, request: Value): (info: RouteInfo)
  {
    w.dispatch(dispatcher, w.methodOf(request), w.pathOf(request))
  }

  class Routing {
    const dispatcher: Value
    const options: Options

    /** Lines 110 and 117: the two fields a successful construction assigns. */
    constructor (dispatcher: Value, options: Options)
      ensures this.dispatcher == dispatcher && this.options == options
    {
      this.dispatcher := dispatcher;
      this.options := options;
    }

    /**
     * `new Routing($options)`: the checks, the cache lookup or route
     * collection, the cache write and the dispatcher, step by step. A
     * failure is returned as `Failure` in place of the exception.
     */
    static method Create(w: World, o: Options) returns (r: Result<Routing, ConfigError>, events: seq<Event>)
      modifies DriverStore(o.cacheDriver)
      ensures var c := Construct(w, o, old(EntriesOf(o.cacheDriver)));
              && events == c.events
              && EntriesOf(o.cacheDriver) == c.store
              && (r.Failure? <==> c.result.Failure?)
              && (r.Failure? ==> r.error == c.result.error)
              && (r.Success? ==> fresh(r.value) && r.value.dispatcher == c.result.value && r.value.options == o)
    {
      events := [];
      if !InstanceOf(w, o.generator, DataGeneratorInterface) {
        return Failure(InvalidGenerator), events;
      }
      if !InstanceOf(w, o.parser, RouteParserInterface) {
        return Failure(InvalidParser), events;
      }
      if !w.isCallable(o.collection) {
        return Failure(InvalidCollection), events;
      }
      var data := Null;  // `$dispatch_data` starts unset
      if CachingOn(o) {
        if o.cacheDriver.NoDriver? {
          return Failure(InvalidCacheDriver), events;
        }
        if o.cacheDriver.OtherDriver? {
          return Failure(CacheDriverCallFailed), events;
        }
        var store := o.cacheDriver.store;
        var present := store.Contains(CacheKey);
        events := events + [StoreContains(CacheKey)];
        if present {
          var fetched := store.Fetch(CacheKey);
          events := events + [StoreFetched(CacheKey)];
          if fetched.Arr? {
            data := store.Fetch(CacheKey);
            events := events + [StoreFetched(CacheKey)];
          } else {
            data := Null;
          }
        } else {
          data := Null;
        }
      }
      if data == Null {
        data := w.collect(o.collection, o.parser, o.generator);
        events := events + [CollectionInvoked];
      }
      if CachingOn(o) {
        var saved := Str(w.varExport(data));
        o.cacheDriver.store.Save(CacheKey, saved);
        events := events + [StoreSaved(CacheKey, saved)];
      }
      var dispatcher := Null;
      if w.isCallable(o.dispatcher) {
        dispatcher := w.call(o.dispatcher, [data]);
        events := events + [FactoryInvoked(data)];
      }
      if !InstanceOf(w, dispatcher, DispatcherInterface) {
        return Failure(InvalidDispatcher), events;
      }
      var routing := new Routing(dispatcher, o);
      r := Success(routing);
    }

    /**
     * `__invoke($request, $response, $next)`: not-found and
     * method-not-allowed raise; a found route's handler runs and its result,
     * which must be a response, goes to `$next`; any other status passes the
     * given response to `$next`.
     */
    function Invoke(w: World, request: Value, response: Value, next: Value): (reply: Reply)
      requires Admissible(w, request, response, next)
      ensures reply.calls != [] && reply.calls[0] == Dispatched(w.methodOf(request), w.pathOf(request))
      ensures reply.result.Success? <==>
                reply.calls != [] && reply.calls[|reply.calls| - 1].NextCalled?
      ensures reply.result.Success? ==>
                var last := reply.calls[|reply.calls| - 1];
                last.request == request && reply.result.value == w.call(next, [request, last.response])
                && InstanceOf(w, last.response, ResponseInterface)
    {
      var lookup := [Dispatched(w.methodOf(request), w.pathOf(request))];
      var info := RouteInfoFor(w, dispatcher, request);
      if info.status == StatusNotFound then Reply(lookup, Failure(NotFound))
      else if info.status == StatusMethodNotAllowed then Reply(lookup, Failure(MethodNotAllowed))
      else
        var handled :=
          if info.status == StatusFound then Resolve(w, info.handler, request, response, info.vars)
          else Reply([], Success(response));
        var calls := lookup + handled.calls;
        if handled.result.Failure? then Reply(calls, handled.result)
        else if !InstanceOf(w, handled.result.value, ResponseInterface) then Reply(calls, Failure(UnexpectedValue))
        else if next == Null then Reply(calls, Failure(NextNotCallable))
        else
          Reply(calls + [NextCalled(request, handled.result.value)],
                Success(w.call(next, [request, handled.result.value])))
    }
  }
}
