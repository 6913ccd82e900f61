/**
 * The slice of the PHP runtime that the routing middleware observes.
 *
 * PHP values are modelled only as far as the middleware inspects them:
 * `instanceof` checks go through a class table, `is_callable` and every call
 * into user code (callbacks, controllers, FastRoute) are fields of a `World`,
 * so that the middleware's own decisions can be stated over any behaviour of
 * the code it calls.
 */
module PhpRuntime {

  datatype Option<+T> = None | Some(value: T)

  datatype Result<+T, +E> = Success(value: T) | Failure(error: E)

  /** A PHP value. A missing array key reads as `Null`. Arrays are opaque: the middleware only asks `is_array`. */
  datatype Value =
    | Null
    | Bool(b: bool)
    | Int(i: int)
    | Str(s: string)
    | Arr(tag: nat)                // an array; `tag` tells arrays apart
    | Obj(cls: string, tag: nat)   // an instance of class `cls`; `tag` tells instances apart
    | Closure(tag: nat)

  /** What reflection reports about one declared method parameter. */
  datatype ParamKind =
    | ArrayParam               // declared `array $x` (ReflectionParameter::isArray)
    | ClassParam(name: string) // declared with a class or interface type
    | OtherParam               // untyped or scalar-typed: getClass() yields null

  /** A loadable class: the names it is an instance of, and its methods' parameter lists. */
  datatype ClassInfo = ClassInfo(supertypes: set<string>, methods: map<string, seq<ParamKind>>)

  /** The array FastRoute's `dispatch` returns: status, then handler and path variables. */
  datatype RouteInfo = RouteInfo(status: int, handler: Value, vars: Value)

  // FastRoute\Dispatcher's status constants
  const StatusNotFound: int := 0
  const StatusFound: int := 1
  const StatusMethodNotAllowed: int := 2

  /**
   * Everything outside the middleware: the class table that `class_exists`,
   * `method_exists`, `new` and reflection consult, and the behaviour of the
   * code the middleware calls.
   */
  datatype World = World(
    classes: map<string, ClassInfo>,
    isCallable: Value -> bool,
    call: (Value, seq<Value>) -> Value,                // invoke a callable with positional arguments
    callMethod: (Value, string, seq<Value>) -> Value,  // call_user_func_array([$object, $method], $args)
    collect: (Value, Value, Value) -> Value,           // run collection(new RouteCollector(parser, generator)), then getData()
    varExport: Value -> string,                        // var_export($value, true)
    dispatch: (Value, string, string) -> RouteInfo,    // $dispatcher->dispatch($httpMethod, $path)
    methodOf: Value -> string,                         // $request->getMethod()
    pathOf: Value -> string,                           // $request->getUri()->getPath()
    stringOf: Value -> Option<string>)                 // an object's __toString(), None when its class has none

  /** `$v instanceof $t`: only objects of a known class are instances of anything. */
  predicate InstanceOf(w: World, v: Value, t: string)
    ensures !v.Obj? || v.cls !in w.classes ==> !InstanceOf(w, v, t)
  {
    v.Obj? && v.cls in w.classes && t in w.classes[v.cls].supertypes
  }

  /** `class_exists($name)`: the empty name never names a class. */
  predicate ClassExists(w: World, name: string)
    ensures ClassExists(w, name) ==> name in w.classes
    ensures name == "" ==> !ClassExists(w, name)
  {
    name != "" && name in w.classes
  }

  /** The decimal digits of `n`, most significant first, without leading zeros. */
  function DecimalDigits(n: nat): (digits: string)
    ensures |digits| >= 1
    ensures forall k :: 0 <= k < |digits| ==> '0' <= digits[k] <= '9'
    decreases n
  {
    var last := ('0' as int + n % 10) as char;
    if n < 10 then [last] else DecimalDigits(n / 10) + [last]
  }

  /**
   * The string a value becomes when passed where PHP 7 expects a string, in
   * weak mode: null and `false` give "", `true` gives "1", an integer its
   * decimal text, an object the text of its `__toString`. An array, or an
   * object without `__toString`, is refused (`None`): the function is not
   * run and returns null.
   */
  function StringCast(w: World, v: Value): (text: Option<string>)
    ensures v.Str? ==> text == Some(v.s)
    ensures v == Null || v == Bool(false) ==> text == Some("")
    ensures v.Int? ==> text.Some? && |text.value| >= 1 && ':' !in text.value
    ensures v.Arr? ==> text == None
  {
    match v
    case Null => Some("")
    case Bool(b) => Some(if b then "1" else "")
    case Int(i) => Some(if i < 0 then "-" + DecimalDigits(-i) else DecimalDigits(i))
    case Str(s) => Some(s)
    case Arr(_) => None
    case Obj(_, _) => w.stringOf(v)
    case Closure(_) => None
  }

  predicate ColonFree(s: string)
  {
    ':' !in s
  }

  /** `explode(":", $s)`: the pieces of `s` between colons, in order. */
  function Explode(s: string): (parts: seq<string>)
    ensures |parts| >= 1
  {
    if s == [] then [""]
    else
      var rest := Explode(s[1..]);
      if s[0] == ':' then [""] + rest
      else [[s[0]] + rest[0]] + rest[1..]
  }

  /** `implode(":", $parts)`, the inverse of `Explode`. */
  function Implode(parts: seq<string>): (s: string)
    requires |parts| >= 1
  {
    if |parts| == 1 then parts[0] else parts[0] + ":" + Implode(parts[1..])
  }

  /** No piece that `explode` returns contains the separator. */
  lemma {:induction false} ExplodePartsColonFree(s: string)
    ensures forall i :: 0 <= i < |Explode(s)| ==> ColonFree(Explode(s)[i])
  {
    if s != [] {
      ExplodePartsColonFree(s[1..]);
      var rest := Explode(s[1..]);
      if s[0] != ':' {
        assert ColonFree(rest[0]);
        assert ColonFree([s[0]] + rest[0]);
      }
    }
  }

  /** A leading empty piece joins as a leading separator. */
  lemma ImplodeEmptyFirst(rest: seq<string>)
    requires |rest| >= 1
    ensures Implode([""] + rest) == ":" + Implode(rest)
  {
    assert ([""] + rest)[1..] == rest;
  }

  /** Prefixing the first piece with a character prefixes the join with it. */
  lemma ImplodeExtendFirst(c: char, parts: seq<string>)
    requires |parts| >= 1
    ensures Implode([[c] + parts[0]] + parts[1..]) == [c] + Implode(parts)
  {
    var extended := [[c] + parts[0]] + parts[1..];
    assert extended[0] == [c] + parts[0] && extended[1..] == parts[1..];
    if |parts| > 1 {
      var tail := ":" + Implode(parts[1..]);
      assert Implode(extended) == ([c] + parts[0]) + tail;
      assert Implode(parts) == parts[0] + tail;
      ConcatAssociative([c], parts[0], tail);
    }
  }

  lemma ConcatAssociative<T>(a: seq<T>, b: seq<T>, c: seq<T>)
    ensures (a + b) + c == a + (b + c)
  {
  }

  /** Joining the pieces again gives back the original text. */
  lemma {:induction false} ImplodeExplode(s: string)
    ensures Implode(Explode(s)) == s
  {
    if s != [] {
      var rest := Explode(s[1..]);
      ImplodeExplode(s[1..]);
      if s[0] == ':' {
        assert Explode(s) == [""] + rest;
        ImplodeEmptyFirst(rest);
      } else {
        assert Explode(s) == [[s[0]] + rest[0]] + rest[1..];
        ImplodeExtendFirst(s[0], rest);
      }
      assert s == [s[0]] + s[1..];
    }
  }

  lemma {:induction false} ExplodeColonFree(s: string)
    requires ColonFree(s)
    ensures Explode(s) == [s]
  {
    if s != [] {
      assert ColonFree(s[1..]) by {
        forall i | 0 <= i < |s[1..]| ensures s[1..][i] != ':' { assert s[1..][i] == s[i + 1]; }
      }
      ExplodeColonFree(s[1..]);
      assert s == [s[0]] + s[1..];
    }
  }

  lemma {:induction false} ExplodeAfterPrefix(c: string, t: string)
    requires ColonFree(c)
    ensures Explode(c + ":" + t) == [c] + Explode(t)
  {
    var s := c + ":" + t;
    if c == [] {
      assert s[0] == ':' && s[1..] == t;
    } else {
      assert ColonFree(c[1..]) by {
        forall i | 0 <= i < |c[1..]| ensures c[1..][i] != ':' { assert c[1..][i] == c[i + 1]; }
      }
      ExplodeAfterPrefix(c[1..], t);
      assert s[0] == c[0] && s[0] != ':';
      assert s[1..] == c[1..] + ":" + t;
      assert [c[0]] + c[1..] == c;
    }
  }

  /** Splitting a join of colon-free pieces gives back exactly those pieces. */
  lemma {:induction false} ExplodeImplode(parts: seq<string>)
    requires |parts| >= 1
    requires forall i :: 0 <= i < |parts| ==> ColonFree(parts[i])
    ensures Explode(Implode(parts)) == parts
  {
    if |parts| == 1 {
      ExplodeColonFree(parts[0]);
    } else {
      ExplodeImplode(parts[1..]);
      ExplodeAfterPrefix(parts[0], Implode(parts[1..]));
      assert parts == [parts[0]] + parts[1..];
    }
  }
}
