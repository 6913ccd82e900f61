# Routing middleware model

A Dafny model of the `Routing` middleware in `src/Routing.php`. It is a
PSR-7 middleware built on FastRoute, and it does two things:

- At construction it validates its options array. It then obtains the
  compiled route table, either from a Doctrine cache or by running the
  user's route collection, writes the table back to the cache, and builds
  a FastRoute dispatcher from it.
- On each request it asks the dispatcher about the request's method and
  path. It raises for routes that are not found or not allowed. For a
  found route it calls the handler, either a callable or a
  `"Class:method"` string. It checks that the handler returned a response
  and passes that response to `$next`.

Everything outside the middleware, except the Doctrine cache, is a field
of a `World` value:

- the class table behind `instanceof`, `class_exists`, `method_exists`
  and reflection;
- `is_callable`, and every call into user code: callbacks, controllers,
  the dispatcher factory, the route collection, `var_export`, and the
  dispatcher's `dispatch`.

The Doctrine cache is a `CacheStore` object, passed in the options as the
`cacheDriver`, whose entries the constructor changes in place.

Each property is therefore stated for every behaviour of that code in
which its calls return normally. Exceptions those calls throw are not
modelled (see "Left out"). User code is a pure function of its arguments
in the model. Calls into collaborators are recorded in order:

- as `Event`s during construction;
- as `Call`s while serving a request, starting with the dispatcher's
  lookup of the request's method and path (`Dispatched`).

This makes "the collection ran", "the store was written once" and "`$next`
was not called" statements about the model.

Files:

- `php_runtime.dfy` (`PhpRuntime`): PHP values, the `World`, reflection's
  parameter kinds, FastRoute's status constants, and `explode(":")` with
  its round-trip lemmas.
- `doctrine_cache.dfy` (`DoctrineCache`): the cache driver, a class over a
  mutable `map` with `contains`, `fetch` and `save`.
- `handler_resolution.dfy` (`HandlerResolution`): `handleFound`.
  - `Resolve` is its specification.
  - `HandleFound` and `BindArguments` are the step-by-step method and the
    `foreach` loop, each proved equal to its specification.
  - It also holds the lemmas about the argument list.
- `routing.dfy` (`RoutingMiddleware`): the options, the construction
  outcome and the `Routing` class.
  - `Construct` specifies the constructor.
  - `Routing.Create` performs it step by step against a `CacheStore`
    object and is proved to follow `Construct`.
  - `Routing.Invoke` is `__invoke`.
- `routing_properties.dfy` (`RoutingProperties`): properties of
  construction and of request handling.

A PHP constructor that throws produces no object. The model therefore
performs construction in the static method `Routing.Create`, which returns
`Failure(error)` in place of the exception. The class's own constructor
only assigns the two fields a successful run sets, at lines 110 and 117.

Where the code differs from the package's documentation and tests, the
model follows the code:

- **The cache write.** The documentation presents the cache as storing
  the compiled routes for reuse. Line 104 saves the `var_export` text of
  the table, which is a string. Line 82 accepts only an array as a hit.
  A table written by this code is therefore never read back, and a later
  construction rebuilds the routes (`SecondConstructionRebuilds`).
- **Not-found and not-allowed routes.** The package's tests expect 404
  and 405 responses, or `onNotFound`/`onMethodNotAllowed` overrides. The
  code throws at lines 139 and 145 and never reads those options.
- **The construction error.** The tests expect `UnexpectedValueException`
  at construction. The code throws `InvalidArgumentException`.

## Model

| member | source | states |
|---|---|---|
| PhpRuntime.Explode | src/Routing.php:175 | `explode(":")` always yields at least one piece, so `$class` is always defined |
| PhpRuntime.ExplodePartsColonFree | src/Routing.php:175 | no piece `explode` yields contains the separator |
| PhpRuntime.DecimalDigits | src/Routing.php:175 | the decimal text of a non-negative integer is non-empty and made of digits only |
| PhpRuntime.StringCast | src/Routing.php:175 | the string PHP 7 passes to `explode` in weak mode: a string is itself, null and `false` are "", an integer is a non-empty colon-free text, an array is refused |
| PhpRuntime.ImplodeEmptyFirst | src/Routing.php:175 | a leading empty piece joins as a leading ":" |
| PhpRuntime.ImplodeExtendFirst | src/Routing.php:175 | extending the first piece by a character extends the joined text by it |
| PhpRuntime.ImplodeExplode | src/Routing.php:175 | joining the pieces with ":" gives back the original target text |
| PhpRuntime.ExplodeColonFree | src/Routing.php:175 | a text without ":" splits into exactly itself |
| PhpRuntime.ExplodeAfterPrefix | src/Routing.php:175 | a colon-free prefix followed by ":" is split off as the first piece |
| PhpRuntime.ExplodeImplode | src/Routing.php:175 | splitting a join of colon-free pieces gives back exactly those pieces |
| PhpRuntime.InstanceOf | src/Routing.php:41-155 | `instanceof` (lines 41, 50, 111, 155) holds only for an object of a known class that has the named type among its supertypes; null and scalars are instances of nothing |
| PhpRuntime.ClassExists | src/Routing.php:177 | `class_exists` holds only for a name in the class table, and never for the empty name |
| DoctrineCache.CacheStore.Contains | src/Routing.php:81 | `contains` is true exactly when the key has an entry |
| DoctrineCache.CacheStore.Fetch | src/Routing.php:82-83 | `fetch` returns the stored entry, or `false` when the key has none |
| DoctrineCache.CacheStore.Save | src/Routing.php:104 | `save` sets the entry under the key and changes no other entry |
| HandlerResolution.InterfacesDiffer | src/Routing.php:201-207 | the request and response interface names differ, so at most one of the two class tests appends |
| HandlerResolution.ArgumentsFor | src/Routing.php:196-207 | one pass of the loop appends exactly one value for an array, request-typed or response-typed parameter, and nothing for any other |
| HandlerResolution.ArgumentsForCases | src/Routing.php:196-207 | array gives the path variables; the request interface gives the request; the response interface gives the response; any other kind gives nothing |
| HandlerResolution.BoundArguments | src/Routing.php:194-208 | the argument list is never longer than the parameter list |
| HandlerResolution.BoundArgumentsStep | src/Routing.php:195-208 | binding one more parameter appends just what the loop appends for it |
| HandlerResolution.PositionsInRange | src/Routing.php:194-208 | every position listed as bound is a parameter index whose kind is recognised |
| HandlerResolution.PositionsIncreasing | src/Routing.php:194-208 | the bound positions are in strictly increasing declaration order |
| HandlerResolution.PositionsComplete | src/Routing.php:194-208 | every recognised parameter's index is among the bound positions |
| HandlerResolution.ArgumentsAtPositions | src/Routing.php:194-208 | the j-th argument is the value for the j-th recognised parameter |
| HandlerResolution.BoundArgumentsSelectRecognised | src/Routing.php:194-208 | the arguments are exactly one value per recognised parameter, in declaration order, and nothing for the others |
| HandlerResolution.BoundArgumentsConcat | src/Routing.php:194-208 | binding a concatenated parameter list concatenates the argument lists |
| HandlerResolution.BoundArgumentsSingle | src/Routing.php:196-207 | binding a single parameter yields what one pass appends for it |
| HandlerResolution.ThreeParameterBinding | src/Routing.php:194-208 | three parameters bind to the concatenation of what each contributes, in declaration order |
| HandlerResolution.ControllerStubBinding | stub/ControllerStub.php:10 | `handleRequest(ServerRequestInterface, ResponseInterface, array)` receives request, response and path variables in that order |
| HandlerResolution.NoParametersNoArguments | stub/ControllerStub.php:15 | `invalidReturnHandler()` declares no parameters and receives no arguments |
| HandlerResolution.TargetText | src/Routing.php:175 | the text `explode` splits is the target's string conversion; a target that cannot be converted splits into the single empty piece, a class name that never exists |
| HandlerResolution.StringableTargetResolvesAsItsText | src/Routing.php:175-213 | a non-callable target that converts to a string resolves exactly as that string would |
| HandlerResolution.Resolve | src/Routing.php:169-214 | resolution never calls `$next`; it succeeds exactly when it ended by calling the handler or the controller method |
| HandlerResolution.BindArguments | src/Routing.php:194-208 | the `foreach` loop builds exactly the bound argument list |
| HandlerResolution.HandleFound | src/Routing.php:169-214 | the step-by-step resolution makes the same calls and returns the same outcome as `Resolve` |
| HandlerResolution.CallableTargetCalledDirectly | src/Routing.php:171-173 | a callable target is called once with (request, response, path variables) and its result is returned |
| HandlerResolution.MissingClassFailsBeforeInstantiation | src/Routing.php:175-179 | a target whose class does not exist raises before any controller is created |
| HandlerResolution.MissingMethodFailsAfterInstantiation | src/Routing.php:181-185 | a missing or absent method name raises after the controller is created, and nothing is called |
| HandlerResolution.ClassMethodTargetCallsMethod | src/Routing.php:175-213 | `"Class:method"` naming an existing method creates the controller and calls that method with the bound arguments |
| RoutingMiddleware.CachingOn | src/Routing.php:68 | caching is on only when the `cache` option is the boolean `true`: `isset` plus `=== true` admits no other value |
| RoutingMiddleware.Admissible | src/Routing.php:130 | the declared parameter types of `__invoke`: request and response are objects implementing their PSR-7 interfaces, and `$next` is callable or left null |
| RoutingMiddleware.RouteInfoFor | src/Routing.php:132 | the route is what the dispatcher returns for the request's method and path |
| RoutingMiddleware.CacheLookup | src/Routing.php:81-87 | the lookup yields a table exactly when the key is present and holds an array, and that table is the stored entry |
| RoutingMiddleware.Construct | src/Routing.php:36-118 | any failure other than the dispatcher check makes no call and leaves the store unchanged |
| RoutingMiddleware.FactoryResult | src/Routing.php:110 | the value line 110 assigns to the dispatcher: the factory applied to the data when it is callable, otherwise null, which is never a Dispatcher |
| RoutingMiddleware.Routing.constructor | src/Routing.php:110-117 | the object holds the given dispatcher and options, in fields written once |
| RoutingMiddleware.Routing.Create | src/Routing.php:36-118 | the constructor makes exactly `Construct`'s calls, leaves the store as `Construct` says, and fails with its error or yields a fresh object holding its dispatcher and the options |
| RoutingMiddleware.Routing.Invoke | src/Routing.php:130-161 | the first call is the dispatcher's lookup of the request's method and path; a request succeeds exactly when it ends by calling `$next`, with the request and a response, and the outcome is what `$next` returned |
| RoutingProperties.ChecksRunInOrder | src/Routing.php:41-63 | generator, then parser, then collection: each error is raised exactly when its check is the first to fail, and raising it makes no call |
| RoutingProperties.CacheDriverChecked | src/Routing.php:68-81 | with caching on, an unset or null driver is rejected and any other non-cache value fails at `contains`, both before the store is touched |
| RoutingProperties.CollectionRunsUnlessCacheHit | src/Routing.php:81-98 | the collection runs once unless the cache holds an array under the key, which is then the dispatch data |
| RoutingProperties.CachedConstruction | src/Routing.php:81-110 | with caching on, the calls are lookup, collection unless there was a hit, one save, then the factory; the save is the store's only change |
| RoutingProperties.CacheWrittenOnce | src/Routing.php:103-105 | with caching on, exactly one save happens, of the exported dispatch data, on a hit as on a miss |
| RoutingProperties.CacheKeyFixed | src/Routing.php:81-105 | every store call uses the key "jowy.routing.cache" |
| RoutingProperties.CacheOffLeavesStoreAlone | src/Routing.php:68-105 | with caching off the store is neither queried nor written |
| RoutingProperties.SecondConstructionRebuilds | src/Routing.php:82-104 | after a construction writes the cache, a later construction finds no cached table and runs the collection again |
| RoutingProperties.DispatcherFromFactory | src/Routing.php:110-117 | once the table is obtained, construction succeeds exactly when the factory's result is a Dispatcher; that result is the factory applied to the table and is the last call made |
| RoutingProperties.RoutedByMethodAndPath | src/Routing.php:132 | two requests with the same method and path get the same route from the same dispatcher |
| RoutingProperties.NotFoundRaises | src/Routing.php:132-140 | NOT_FOUND raises the not-found error and calls nothing after the dispatcher's lookup |
| RoutingProperties.MethodNotAllowedRaises | src/Routing.php:144-146 | METHOD_NOT_ALLOWED raises the method-not-allowed error and calls nothing after the dispatcher's lookup |
| RoutingProperties.FoundResolutionErrorPropagates | src/Routing.php:150-152 | on FOUND, an error from resolving the handler is the request's outcome |
| RoutingProperties.FoundNonResponseRaises | src/Routing.php:150-159 | on FOUND, a handler result that is not a response raises the unexpected-value error and `$next` is not called |
| RoutingProperties.FoundResponseGoesToNext | src/Routing.php:150-160 | on FOUND, the handler's response goes with the request to `$next`, whose result is returned |
| RoutingProperties.UnlistedStatusPassesResponseThrough | src/Routing.php:134-160 | a status the switch does not list skips the handler and passes the given response to `$next` |

## Left out

- Exceptions thrown by the code the middleware calls are not modelled. These calls are the route collection (line 95), `var_export` (104), the dispatcher factory (110), the dispatcher's `dispatch` (132), a callable handler (172), a controller's constructor (181) and method (213), and `$next` (160). PHP passes each such exception on to the caller. The `World` functions always return a value, so every contract below describes runs in which these calls return normally.
- RoutingMiddleware.Construct: when the route collection or the dispatcher factory throws, PHP stops at that call. In particular no save happens at line 104 after a throwing collection. The model always continues past these calls.
- RoutingMiddleware.Routing.Create: same as `Construct`, which it follows.
- RoutingProperties.CacheWrittenOnce: "exactly one save" holds when the route collection returns. If it throws, there is no save, which the model does not express.
- HandlerResolution.Resolve: "succeeds exactly when it ended by calling the handler or the controller method" holds when that call returns. An exception it throws is not modelled.
- RoutingMiddleware.Routing.Invoke: "succeeds exactly when it ends by calling `$next`" holds when the handler and `$next` return. An exception from either is not modelled.

- FastRoute's `RouteCollector`, data generators, route parsers and dispatcher matching are not modelled. The collection run is the opaque `World.collect`, and `dispatch` is `World.dispatch`, which returns a status, handler and variables.
- PSR-7 requests and responses, and the Diactoros and Stratigility packages, are not modelled. Requests and responses are objects of a class in the class table. The method and path are read through `World.methodOf` and `World.pathOf`.
- Doctrine's persistence, lifetimes and namespaces are not modelled. The store is an in-memory map.
- Exception messages are not modelled; only which error is raised is. The construction errors (lines 43, 52, 61, 74 and 113) are built from `printf`, which also writes the text to the output and yields its length as the message; that output is not modelled either. The request errors carry the literal texts at lines 139 and 145 and the `sprintf` texts at lines 156-157, 178 and 184. The allowed-methods argument at line 145 is not modelled.
- User code is modelled as pure: each `World` function depends only on its arguments. Side effects of that code on shared state are not modelled, for example a route collection or dispatcher factory that writes to the same Doctrine store.
- RoutingProperties.CachedConstruction: "the save is the store's only change" holds when the route collection and the dispatcher factory do not touch the store, as pure collaborators do.
- RoutingMiddleware.Routing.Create: its statement of the store's new state likewise assumes collaborators that do not touch the store.
- PHP's case-insensitive class and method names are not modelled. Names are compared exactly.
- Beyond existence, the controller's class is not modelled: an abstract class, or a constructor with side effects or required arguments, is not distinguished. Instantiation is the `ControllerCreated` call.
- `ReflectionException`, raised when a parameter's declared class cannot be loaded, is not modelled. Such a parameter is a `ClassParam` with another name, and binds nothing.
- Untyped and scalar-typed parameters are `OtherParam`. For these, line 201 reads `name` on `null`. PHP reports that as a notice or warning and yields `null`, so nothing is appended. The diagnostic itself is not modelled.
- A cache driver that is not a Doctrine `Cache` but still has `contains`, `fetch` and `save` methods (duck typing) is not modelled. A driver set to null is `NoDriver`, a Doctrine cache is `CacheDriver`, and any other value is `OtherDriver`, which fails at `contains` (`CacheDriverCallFailed`). `OtherDriver` carries no value, so it cannot stand for null or for a cache.
- Arrays are opaque (`Arr(tag)`). The middleware only asks whether a value is an array, and their contents are left to the `World` functions.
- A `Closure` value is opaque. Whether a value is callable is decided only by `World.isCallable`.
- HandlerResolution.TargetText: the target is converted as PHP 7 does in weak mode (`StringCast`). A target that cannot be converted (an array, a closure, an object without `__toString`) makes `explode` return null, and is split as the empty text, so it fails with `ClassNotFound`. PHP 8's `TypeError` for such a target is not modelled. Floats and resources are not among the modelled values; the `__toString` text of an object is the opaque `World.stringOf`.
- RoutingMiddleware.Routing.Invoke: the status is compared as an integer. PHP's loose `switch` comparison of a non-integer status is not modelled.
- Options read under keys the constructor does not consult are not modelled. `Options` has only the six keys it reads. The `options` field stores what the constructor was given.
