/**
 * Resolution of a matched route's target and binding of the controller
 * method's arguments by declared parameter type (`Routing::handleFound`).
 */
module HandlerResolution {
  import opened PhpRuntime

  const RequestInterface: string := "Psr\\Http\\Message\\ServerRequestInterface"
  const ResponseInterface: string := "Psr\\Http\\Message\\ResponseInterface"

  /** The exceptions a request can end in. */
  datatype RequestError =
    | NotFound          // NotFoundHttpException
    | MethodNotAllowed  // MethodNotAllowedHttpException
    | UnexpectedValue   // UnexpectedValueException: the handler did not return a response
    | ClassNotFound     // InvalidArgumentException: the target's class does not exist
    | MethodNotFound    // InvalidArgumentException: the controller has no such method
    | NextNotCallable   // Error: `$next` was left null

  /** One call from the middleware into user code while serving a request, in order. */
  datatype Call =
    | Dispatched(httpMethod: string, path: string)  // the dispatcher asked about the request's method and path
    | HandlerCalled(target: Value, args: seq<Value>)
    | ControllerCreated(cls: string)
    | MethodCalled(cls: string, name: string, args: seq<Value>)
    | NextCalled(request: Value, response: Value)

  /** What serving (part of) a request did, and what it returned or threw. */
  datatype Reply = Reply(calls: seq<Call>, result: Result<Value, RequestError>)

  /** The parameter kinds the binding loop supplies a value for. */
  predicate Recognised(k: ParamKind)
  {
    k.ArrayParam? || k == ClassParam(RequestInterface) || k == ClassParam(ResponseInterface)
  }

  lemma InterfacesDiffer()
    ensures RequestInterface != ResponseInterface
  {
    assert |RequestInterface| != |ResponseInterface|;
  }

  /** The one value a recognised parameter receives. */
  function ArgumentFor(k: ParamKind, request: Value, response: Value, vars: Value): (v: Value)
    requires Recognised(k)
  {
    if k.ArrayParam? then vars
    else if k == ClassParam(RequestInterface) then request
    else response
  }

  /**
   * What one pass of the binding loop appends for parameter `k`: path
   * variables for `array`, then the request if the declared class is exactly
   * the request interface, then the response if it is exactly the response
   * interface.
   */
  function ArgumentsFor(k: ParamKind, request: Value, response: Value, vars: Value): (args: seq<Value>)
    ensures args == if Recognised(k) then [ArgumentFor(k, request, response, vars)] else []
  {
    InterfacesDiffer();
    match k
    case ArrayParam => [vars]
    case ClassParam(name) =>
      (if name == RequestInterface then [request] else [])
      + (if name == ResponseInterface then [response] else [])
    case OtherParam => []
  }

  /** The loop's three tests, one at a time. */
  lemma ArgumentsForCases(k: ParamKind, request: Value, response: Value, vars: Value)
    ensures k.ArrayParam? ==> ArgumentsFor(k, request, response, vars) == [vars]
    ensures k == ClassParam(RequestInterface) ==>
              k != ClassParam(ResponseInterface) && ArgumentsFor(k, request, response, vars) == [request]
    ensures k == ClassParam(ResponseInterface) ==> ArgumentsFor(k, request, response, vars) == [response]
    ensures !Recognised(k) ==> ArgumentsFor(k, request, response, vars) == []
  {
    InterfacesDiffer();
  }

  /** The positional argument list built for parameters `kinds`. */
  function BoundArguments(kinds: seq<ParamKind>, request: Value, response: Value, vars: Value): (args: seq<Value>)
    ensures |args| <= |kinds|
    decreases |kinds|
  {
    if kinds == [] then []
    else
      BoundArguments(kinds[..|kinds| - 1], request, response, vars)
      + ArgumentsFor(kinds[|kinds| - 1], request, response, vars)
  }

  /** The indices of the recognised parameters, in declaration order. */
  function RecognisedPositions(kinds: seq<ParamKind>): (pos: seq<nat>)
    decreases |kinds|
  {
    if kinds == [] then []
    else
      RecognisedPositions(kinds[..|kinds| - 1])
      + (if Recognised(kinds[|kinds| - 1]) then [|kinds| - 1] else [])
  }

  /** Binding one more parameter appends what the loop appends for it. */
  lemma BoundArgumentsStep(kinds: seq<ParamKind>, i: nat, request: Value, response: Value, vars: Value)
    requires i < |kinds|
    ensures BoundArguments(kinds[..i + 1], request, response, vars)
         == BoundArguments(kinds[..i], request, response, vars) + ArgumentsFor(kinds[i], request, response, vars)
  {
    assert kinds[..i + 1][..i] == kinds[..i];
  }

  lemma {:induction false} PositionsInRange(kinds: seq<ParamKind>)
    ensures forall j :: 0 <= j < |RecognisedPositions(kinds)| ==>
              RecognisedPositions(kinds)[j] < |kinds| && Recognised(kinds[RecognisedPositions(kinds)[j]])
    decreases |kinds|
  {
    if kinds != [] {
      var n := |kinds| - 1;
      PositionsInRange(kinds[..n]);
      var posInit := RecognisedPositions(kinds[..n]);
      forall j | 0 <= j < |posInit| ensures kinds[posInit[j]] == kinds[..n][posInit[j]] { }
    }
  }

  lemma {:induction false} PositionsIncreasing(kinds: seq<ParamKind>)
    ensures forall j, l :: 0 <= j < l < |RecognisedPositions(kinds)| ==>
              RecognisedPositions(kinds)[j] < RecognisedPositions(kinds)[l]
    decreases |kinds|
  {
    if kinds != [] {
      var n := |kinds| - 1;
      PositionsIncreasing(kinds[..n]);
      PositionsInRange(kinds[..n]);
    }
  }

  lemma {:induction false} PositionsComplete(kinds: seq<ParamKind>)
    ensures forall i :: 0 <= i < |kinds| && Recognised(kinds[i]) ==> i in RecognisedPositions(kinds)
    decreases |kinds|
  {
    if kinds != [] {
      var n := |kinds| - 1;
      PositionsComplete(kinds[..n]);
      forall i | 0 <= i < n && Recognised(kinds[i]) ensures i in RecognisedPositions(kinds[..n]) {
        assert kinds[..n][i] == kinds[i];
      }
    }
  }

  lemma {:induction false} ArgumentsAtPositions(kinds: seq<ParamKind>, request: Value, response: Value, vars: Value)
    ensures var args := BoundArguments(kinds, request, response, vars);
            var pos := RecognisedPositions(kinds);
            && |pos| == |args|
            && forall j :: 0 <= j < |pos| ==>
                 pos[j] < |kinds| && Recognised(kinds[pos[j]])
                 && args[j] == ArgumentFor(kinds[pos[j]], request, response, vars)
    decreases |kinds|
  {
    PositionsInRange(kinds);
    if kinds != [] {
      var n := |kinds| - 1;
      var k := kinds[n];
      ArgumentsAtPositions(kinds[..n], request, response, vars);
      PositionsInRange(kinds[..n]);
      var argsInit := BoundArguments(kinds[..n], request, response, vars);
      var posInit := RecognisedPositions(kinds[..n]);
      var args := BoundArguments(kinds, request, response, vars);
      var pos := RecognisedPositions(kinds);
      assert args == argsInit + ArgumentsFor(k, request, response, vars);
      assert pos == posInit + (if Recognised(k) then [n] else []);
      forall j | 0 <= j < |pos|
        ensures args[j] == ArgumentFor(kinds[pos[j]], request, response, vars)
      {
        if j < |posInit| {
          assert kinds[posInit[j]] == kinds[..n][posInit[j]];
        }
      }
    }
  }

  /**
   * The argument list holds, in declaration order, one value for each
   * recognised parameter and nothing for any other parameter.
   */
  lemma BoundArgumentsSelectRecognised(kinds: seq<ParamKind>, request: Value, response: Value, vars: Value)
    ensures var args := BoundArguments(kinds, request, response, vars);
            var pos := RecognisedPositions(kinds);
            && |pos| == |args|
            && (forall j :: 0 <= j < |pos| ==>
                  pos[j] < |kinds| && Recognised(kinds[pos[j]])
                  && args[j] == ArgumentFor(kinds[pos[j]], request, response, vars))
            && (forall j, l :: 0 <= j < l < |pos| ==> pos[j] < pos[l])
            && (forall i :: 0 <= i < |kinds| && Recognised(kinds[i]) ==> i in pos)
  {
    ArgumentsAtPositions(kinds, request, response, vars);
    PositionsIncreasing(kinds);
    PositionsComplete(kinds);
  }

  lemma DropLastOfConcat<T>(a: seq<T>, b: seq<T>)
    requires b != []
    ensures (a + b)[..|a + b| - 1] == a + b[..|b| - 1] && (a + b)[|a + b| - 1] == b[|b| - 1]
  {
  }

  /** Binding over two consecutive parameter lists concatenates their arguments. */
  lemma {:induction false} BoundArgumentsConcat(a: seq<ParamKind>, b: seq<ParamKind>, request: Value, response: Value, vars: Value)
    ensures BoundArguments(a + b, request, response, vars)
         == BoundArguments(a, request, response, vars) + BoundArguments(b, request, response, vars)
    decreases |b|
  {
    if b == [] {
      assert a + b == a;
    } else {
      var n := |b| - 1;
      DropLastOfConcat(a, b);
      BoundArgumentsConcat(a, b[..n], request, response, vars);
    }
  }

  /** Three parameters bind to what each of them contributes, in order. */
  lemma ThreeParameterBinding(k0: ParamKind, k1: ParamKind, k2: ParamKind, request: Value, response: Value, vars: Value)
    ensures BoundArguments([k0, k1, k2], request, response, vars)
         == ArgumentsFor(k0, request, response, vars) + ArgumentsFor(k1, request, response, vars)
            + ArgumentsFor(k2, request, response, vars)
  {
    BoundArgumentsSingle(k0, request, response, vars);
    BoundArgumentsSingle(k1, request, response, vars);
    BoundArgumentsSingle(k2, request, response, vars);
    BoundArgumentsConcat([k0], [k1], request, response, vars);
    BoundArgumentsConcat([k0] + [k1], [k2], request, response, vars);
    assert [k0, k1, k2] == [k0] + [k1] + [k2];
  }

  /**
   * `ControllerStub::handleRequest(ServerRequestInterface $req,
   * ResponseInterface $res, array $param = null)` receives request, response
   * and path variables, in that order.
   */
  lemma ControllerStubBinding(kinds: seq<ParamKind>, request: Value, response: Value, vars: Value)
    requires kinds == [ClassParam(RequestInterface), ClassParam(ResponseInterface), ArrayParam]
    ensures BoundArguments(kinds, request, response, vars) == [request, response, vars]
  {
    ThreeParameterBinding(kinds[0], kinds[1], kinds[2], request, response, vars);
    assert kinds == [kinds[0], kinds[1], kinds[2]];
    ArgumentsForCases(kinds[0], request, response, vars);
    ArgumentsForCases(kinds[1], request, response, vars);
    ArgumentsForCases(kinds[2], request, response, vars);
  }

  /** `ControllerStub::invalidReturnHandler()` declares no parameters and receives no arguments. */
  lemma NoParametersNoArguments(request: Value, response: Value, vars: Value)
    ensures BoundArguments([], request, response, vars) == []
  {
  }

  lemma BoundArgumentsSingle(k: ParamKind, request: Value, response: Value, vars: Value)
    ensures BoundArguments([k], request, response, vars) == ArgumentsFor(k, request, response, vars)
  {
    assert [k][..0] == [];
  }

  /**
   * The text `explode` splits at line 175: the target converted to a string.
   * When it cannot be converted, `explode` returns null, `list` assigns
   * null to `$class`, and `class_exists(null)` looks for the empty name.
   */
  function TargetText(w: World, target: Value): (text: string)
    ensures StringCast(w, target).Some? ==> text == StringCast(w, target).value
    ensures StringCast(w, target).None? ==> Explode(text) == [""]
  {
    match StringCast(w, target)
    case Some(t) => t
    case None => ""
  }

  /**
   * `handleFound`: call a callable target with (request, response, path
   * variables); otherwise split the target on ":" into class and method,
   * check that the class exists, instantiate it, check that the method
   * exists, and call it with the arguments bound by parameter type.
   */
  function Resolve(w: World, target: Value, request: Value, response: Value, vars: Value): (reply: Reply)
    ensures forall c :: c in reply.calls ==> !c.NextCalled?
    ensures reply.result.Success? <==>
              reply.calls != [] && (reply.calls[|reply.calls| - 1].HandlerCalled? || reply.calls[|reply.calls| - 1].MethodCalled?)
  {
    if w.isCallable(target) then
      var args := [request, response, vars];
      Reply([HandlerCalled(target, args)], Success(w.call(target, args)))
    else
      var parts := Explode(TargetText(w, target));
      var cls := parts[0];
      if !ClassExists(w, cls) then
        Reply([], Failure(ClassNotFound))
      else if |parts| < 2 || parts[1] !in w.classes[cls].methods then
        Reply([ControllerCreated(cls)], Failure(MethodNotFound))
      else
        var name := parts[1];
        var args := BoundArguments(w.classes[cls].methods[name], request, response, vars);
        Reply([ControllerCreated(cls), MethodCalled(cls, name, args)], Success(w.callMethod(Obj(cls, 0), name, args)))
  }

  /** Lines 194-208: the `foreach` loop that fills the controller method's parameters. */
  method BindArguments(kinds: seq<ParamKind>, request: Value, response: Value, vars: Value) returns (params: seq<Value>)
    ensures params == BoundArguments(kinds, request, response, vars)
  {
    params := [];
    for i := 0 to |kinds|
      invariant params == BoundArguments(kinds[..i], request, response, vars)
    {
      var k := kinds[i];
      ghost var before := params;
      InterfacesDiffer();
      if k.ArrayParam? {
        params := params + [vars];
        assert params == BoundArguments(kinds[..i + 1], request, response, vars) by {
          ArgumentsForCases(k, request, response, vars);
          BoundArgumentsStep(kinds, i, request, response, vars);
        }
        continue;
      }
      if k == ClassParam(RequestInterface) {
        params := params + [request];
      }
      if k == ClassParam(ResponseInterface) {
        params := params + [response];
      }
      assert params == BoundArguments(kinds[..i + 1], request, response, vars) by {
        ArgumentsForCases(k, request, response, vars);
        assert params == before + ArgumentsFor(k, request, response, vars);
        BoundArgumentsStep(kinds, i, request, response, vars);
      }
    }
    assert kinds[..|kinds|] == kinds;
  }

  /** `handleFound` step by step. */
  method HandleFound(w: World, target: Value, request: Value, response: Value, vars: Value) returns (reply: Reply)
    ensures reply == Resolve(w, target, request, response, vars)
  {
    if w.isCallable(target) {
      var args := [request, response, vars];
      return Reply([HandlerCalled(target, args)], Success(w.call(target, args)));
    }
    var parts := Explode(TargetText(w, target));
    var cls := parts[0];
    var name: Option<string> := if |parts| >= 2 then Some(parts[1]) else None;
    if !ClassExists(w, cls) {
      return Reply([], Failure(ClassNotFound));
    }
    var controller := Obj(cls, 0);
    if name.None? || name.value !in w.classes[cls].methods {
      return Reply([ControllerCreated(cls)], Failure(MethodNotFound));
    }
    var params := BindArguments(w.classes[cls].methods[name.value], request, response, vars);
    reply := Reply([ControllerCreated(cls), MethodCalled(cls, name.value, params)],
                   Success(w.callMethod(controller, name.value, params)));
  }

  /** A callable target is called directly with (request, response, path variables). */
  lemma CallableTargetCalledDirectly(w: World, target: Value, request: Value, response: Value, vars: Value)
    requires w.isCallable(target)
    ensures Resolve(w, target, request, response, vars)
         == Reply([HandlerCalled(target, [request, response, vars])], Success(w.call(target, [request, response, vars])))
  {
  }

  /** A non-callable target whose class does not exist fails before anything is instantiated. */
  lemma MissingClassFailsBeforeInstantiation(w: World, target: Value, request: Value, response: Value, vars: Value)
    requires !w.isCallable(target) && !ClassExists(w, Explode(TargetText(w, target))[0])
    ensures var reply := Resolve(w, target, request, response, vars);
            reply.result == Failure(ClassNotFound) && forall c :: c in reply.calls ==> !c.ControllerCreated?
  {
  }

  /** A missing method is detected only after the controller was instantiated, and nothing is called. */
  lemma MissingMethodFailsAfterInstantiation(w: World, target: Value, request: Value, response: Value, vars: Value)
    requires !w.isCallable(target)
    requires var parts := Explode(TargetText(w, target));
             ClassExists(w, parts[0]) && (|parts| < 2 || parts[1] !in w.classes[parts[0]].methods)
    ensures Resolve(w, target, request, response, vars)
         == Reply([ControllerCreated(Explode(TargetText(w, target))[0])], Failure(MethodNotFound))
  {
  }

  /**
   * A non-callable target that converts to a string (an object with
   * `__toString`, say) is resolved exactly as that string would be.
   */
  lemma StringableTargetResolvesAsItsText(w: World, target: Value, text: string, request: Value, response: Value, vars: Value)
    requires StringCast(w, target) == Some(text)
    requires !w.isCallable(target) && !w.isCallable(Str(text))
    ensures Resolve(w, target, request, response, vars) == Resolve(w, Str(text), request, response, vars)
  {
  }

  /**
   * A "Class:method" target naming an existing method instantiates the class
   * and calls that method with the arguments bound from its parameter kinds.
   */
  lemma {:induction false} ClassMethodTargetCallsMethod(w: World, cls: string, name: string, request: Value, response: Value, vars: Value)
    requires ColonFree(cls) && ColonFree(name)
    requires !w.isCallable(Str(cls + ":" + name))
    requires ClassExists(w, cls) && name in w.classes[cls].methods
    ensures var args := BoundArguments(w.classes[cls].methods[name], request, response, vars);
            Resolve(w, Str(cls + ":" + name), request, response, vars)
            == Reply([ControllerCreated(cls), MethodCalled(cls, name, args)], Success(w.callMethod(Obj(cls, 0), name, args)))
  {
    ExplodeImplode([cls, name]);
    assert Implode([cls, name]) == cls + ":" + name by {
      assert [cls, name][1..] == [name];
    }
  }
}
